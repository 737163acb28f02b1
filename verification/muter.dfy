/**
 * One poll of the session bus: for every listed service name that is an MPRIS
 * media player, read the current track title and volume, then mute on an ad
 * and unmute when ordinary content plays at volume zero.
 *
 * The bus is not modelled. Each listed name comes with what the bus answered
 * for it, as a `Probe`: the metadata dictionary (or `None` when the property
 * Get failed) and the volume (or `None` when that Get failed). The result of
 * a poll is the sequence of volume-set requests it issues, in order.
 */
module Muter {
  import opened Wrappers
  import opened AdDetect

  /** Service names of media players start with this. */
  const PlayerPrefix: string := "org.mpris.MediaPlayer2."

  /** The metadata key holding the track title. */
  const TitleKey: string := "xesam:title"

  /** The volume written on an ad. */
  const MutedVolume: real := 0.0

  /** The volume written when content resumes at volume zero. */
  const FullVolume: real := 1.0

  /** `g_str_has_prefix`. */
  predicate HasPrefix(s: string, prefix: string) {
    |prefix| <= |s| && s[..|prefix|] == prefix
  }

  /** A metadata value: a plain string, or a value of any other type. */
  datatype MetaValue = Text(text: string) | Other

  type Metadata = map<string, MetaValue>

  /** What the bus answered for one listed service name during one poll. */
  datatype Probe = Probe(name: string, metadata: Option<Metadata>, volume: Option<real>)

  /** The decision for one player. */
  datatype Action = NoAction | SetVolume(level: real)

  /** One `set_player_volume` call issued by a poll. */
  datatype Command = Command(name: string, level: real)

  /**
   * `g_variant_lookup(dict, "xesam:title", "s", ...)`: the title, when the key
   * is present and holds a string.
   */
  function Title(md: Metadata): (r: Option<string>)
    ensures r.Some? <==> TitleKey in md && md[TitleKey].Text?
    ensures r.Some? ==> md[TitleKey] == Text(r.value)
  {
    if TitleKey in md then
      match md[TitleKey]
      case Text(t) => Some(t)
      case Other => None
    else None
  }

  /** The title a probe reports, if its metadata could be read and holds one. */
  function ProbeTitle(p: Probe): Option<string> {
    match p.metadata
    case None => None
    case Some(md) => Title(md)
  }

  /**
   * The decision for one listed name: only media players are considered; a
   * missing dictionary or title means nothing is done; an ad title mutes; any
   * other title unmutes only when the volume read back is exactly zero.
   */
  function Decide(p: Probe): (a: Action)
    ensures a == NoAction || a == SetVolume(MutedVolume) || a == SetVolume(FullVolume)
    ensures a != NoAction ==> HasPrefix(p.name, PlayerPrefix) && ProbeTitle(p).Some?
    ensures a == SetVolume(MutedVolume) <==> HasPrefix(p.name, PlayerPrefix) && ProbeTitle(p).Some? && IsAd(ProbeTitle(p).value)
  {
    if !HasPrefix(p.name, PlayerPrefix) then NoAction
    else
      match p.metadata
      case None => NoAction
      case Some(md) =>
        match Title(md)
        case None => NoAction
        case Some(title) =>
          if IsAd(title) then SetVolume(MutedVolume)
          else
            match p.volume
            case None => NoAction
            case Some(v) => if v == 0.0 then SetVolume(FullVolume) else NoAction
  }

  /** The request a probe contributes to a poll: none, or one for its own name. */
  function CommandsFor(p: Probe): (r: seq<Command>)
    ensures |r| <= 1
    ensures r == [] <==> Decide(p) == NoAction
    ensures r != [] ==> r[0].name == p.name && Decide(p) == SetVolume(r[0].level)
  {
    match Decide(p)
    case NoAction => []
    case SetVolume(level) => [Command(p.name, level)]
  }

  /** The decision for every listed name of one poll, in listing order. */
  function Actions(ps: seq<Probe>): (r: seq<Action>)
    ensures |r| == |ps|
    ensures forall i :: 0 <= i < |ps| ==> r[i] == Decide(ps[i])
  {
    if ps == [] then [] else Actions(ps[..|ps| - 1]) + [Decide(ps[|ps| - 1])]
  }

  /** `c` is the request player `p` leads to. */
  predicate IssuedBy(p: Probe, c: Command) {
    p.name == c.name && Decide(p) == SetVolume(c.level)
  }

  /** `c` is the request some player listed in `ps` leads to. */
  predicate IssuedByListed(ps: seq<Probe>, c: Command) {
    exists i :: 0 <= i < |ps| && IssuedBy(ps[i], c)
  }

  /** The volume-set requests of one poll over the listed names `ps`, in order. */
  function Commands(ps: seq<Probe>): (r: seq<Command>)
    ensures |r| <= |ps|
    ensures forall k :: 0 <= k < |r| ==> IssuedByListed(ps, r[k])
    ensures forall k :: 0 <= k < |r| ==> HasPrefix(r[k].name, PlayerPrefix)
    ensures forall k :: 0 <= k < |r| ==> r[k].level == MutedVolume || r[k].level == FullVolume
  {
    if ps == [] then []
    else
      var init := ps[..|ps| - 1];
      var last := ps[|ps| - 1];
      var r := Commands(init) + CommandsFor(last);
      assert forall c :: IssuedByListed(init, c) ==> IssuedByListed(ps, c) by {
        assert forall i :: 0 <= i < |init| ==> ps[i] == init[i];
      }
      assert CommandsFor(last) != [] ==> IssuedBy(ps[|ps| - 1], CommandsFor(last)[0]);
      r
  }

  /**
   * The requests a sequence of decisions leads to: one per decision other
   * than `NoAction`, for the name of the probe it was made for, in order.
   */
  function Requests(ps: seq<Probe>, acts: seq<Action>): seq<Command>
    requires |acts| == |ps|
  {
    if ps == [] then []
    else
      var last := ps[|ps| - 1];
      Requests(ps[..|ps| - 1], acts[..|acts| - 1]) +
        match acts[|acts| - 1]
        case NoAction => []
        case SetVolume(level) => [Command(last.name, level)]
  }

  /** A poll's requests are exactly those its per-name decisions lead to, in listing order. */
  lemma {:induction false} CommandsFollowActions(ps: seq<Probe>)
    ensures Commands(ps) == Requests(ps, Actions(ps))
    decreases |ps|
  {
    if ps != [] {
      var init := ps[..|ps| - 1];
      assert Actions(ps)[..|ps| - 1] == Actions(init);
      CommandsFollowActions(init);
    }
  }

  /**
   * `monitor_and_mute`: walk the listed names in order and collect the
   * requests issued. A failed `ListNames` call (`None`) issues nothing.
   */
  method MonitorAndMute(listing: Option<seq<Probe>>) returns (issued: seq<Command>)
    ensures listing.None? ==> issued == []
    ensures listing.Some? ==> issued == Commands(listing.value)
  {
    issued := [];
    if listing.None? {
      return;
    }
    var ps := listing.value;
    var i := 0;
    while i < |ps|
      invariant 0 <= i <= |ps|
      invariant issued == Commands(ps[..i])
    {
      assert ps[..i + 1][..i] == ps[..i];
      issued := issued + CommandsFor(ps[i]);
      i := i + 1;
    }
    assert ps[..|ps|] == ps;
  }

  /** A name outside the media-player namespace never leads to a request, whatever the bus said. */
  lemma NonPlayerIgnored(name: string, md: Option<Metadata>, vol: Option<real>)
    requires !HasPrefix(name, PlayerPrefix)
    ensures Decide(Probe(name, md, vol)) == NoAction
  {
  }

  /** No metadata, or metadata without a string title, means no request. */
  lemma MissingTitleIgnored(p: Probe)
    requires ProbeTitle(p).None?
    ensures Decide(p) == NoAction
  {
  }

  /** An ad title mutes, and the volume (read or not) plays no part in it. */
  lemma AdAlwaysMutes(p: Probe, vol: Option<real>)
    requires HasPrefix(p.name, PlayerPrefix)
    requires ProbeTitle(p).Some? && IsAd(ProbeTitle(p).value)
    ensures Decide(p) == SetVolume(MutedVolume)
    ensures Decide(p.(volume := vol)) == Decide(p)
  {
  }

  /**
   * Ordinary content is unmuted exactly when the volume read back is zero;
   * any other volume, or a failed read, leaves the player alone.
   */
  lemma ContentUnmutesOnlyAtZero(p: Probe)
    requires HasPrefix(p.name, PlayerPrefix)
    requires ProbeTitle(p).Some? && !IsAd(ProbeTitle(p).value)
    ensures Decide(p) == SetVolume(FullVolume) <==> p.volume == Some(0.0)
    ensures p.volume != Some(0.0) ==> Decide(p) == NoAction
  {
  }

  /** The unmute request, stated from the result back to its causes. */
  lemma UnmuteIff(p: Probe)
    ensures Decide(p) == SetVolume(FullVolume) <==>
      HasPrefix(p.name, PlayerPrefix) && ProbeTitle(p).Some? && !IsAd(ProbeTitle(p).value) && p.volume == Some(0.0)
  {
  }

  /**
   * Across two polls: a player muted for an ad, whose volume is then read
   * back as the muted level while ordinary content plays, is set to full volume.
   */
  lemma AdThenContentRestores(before: Probe, after: Probe)
    requires Decide(before) == SetVolume(MutedVolume)
    requires after.name == before.name
    requires ProbeTitle(after).Some? && !IsAd(ProbeTitle(after).value)
    requires after.volume == Some(MutedVolume)
    ensures Decide(after) == SetVolume(FullVolume)
  {
  }

  /** The requests of a poll over two runs of names are those of each run, in order. */
  lemma {:induction false} CommandsConcat(a: seq<Probe>, b: seq<Probe>)
    ensures Commands(a + b) == Commands(a) + Commands(b)
    decreases |b|
  {
    if b == [] {
      assert a + b == a;
    } else {
      var b' := b[..|b| - 1];
      assert (a + b)[..|a + b| - 1] == a + b';
      assert (a + b)[|a + b| - 1] == b[|b| - 1];
      CommandsConcat(a, b');
    }
  }

  /**
   * Each player is handled on its own: what one listed name contributes does
   * not depend on the names before or after it.
   */
  lemma PlayersIndependent(before: seq<Probe>, p: Probe, after: seq<Probe>)
    ensures Commands(before + [p] + after) == Commands(before) + CommandsFor(p) + Commands(after)
  {
    CommandsConcat(before + [p], after);
    CommandsConcat(before, [p]);
    assert [p][..0] == [];
  }

  /** A request is in a poll's output exactly when some listed player leads to it. */
  lemma CommandIssuedIff(ps: seq<Probe>, c: Command)
    ensures c in Commands(ps) <==> IssuedByListed(ps, c)
  {
    if c in Commands(ps) {
      var k :| 0 <= k < |Commands(ps)| && Commands(ps)[k] == c;
    }
    if exists i :: 0 <= i < |ps| && IssuedBy(ps[i], c) {
      var i :| 0 <= i < |ps| && IssuedBy(ps[i], c);
      IssuedIsInCommands(ps, i, c);
    }
  }

  /** The request a listed player leads to is in the poll's output. */
  lemma {:induction false} IssuedIsInCommands(ps: seq<Probe>, i: int, c: Command)
    requires 0 <= i < |ps| && IssuedBy(ps[i], c)
    ensures c in Commands(ps)
    decreases |ps|
  {
    var init := ps[..|ps| - 1];
    if i == |ps| - 1 {
      assert CommandsFor(ps[i]) == [c];
    } else {
      assert init[i] == ps[i];
      IssuedIsInCommands(init, i, c);
    }
  }
}
