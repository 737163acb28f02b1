# SpotifyMuter decision core, in Dafny

SpotifyMuter is a small daemon. Once a second it lists the names on the D-Bus
session bus and picks out the MPRIS media players (names starting with
`org.mpris.MediaPlayer2.`). For each player it reads the current track's
`xesam:title`. When the title contains the word "advertisement" in any letter
case, it sets the player's volume to 0.0. When the title is anything else and
the volume it reads back is exactly 0.0, it sets the volume to 1.0.

This project models the pure decision logic of that daemon and proves its
properties. The bus is replaced by the answers it gave:

- `wrappers.dfy`: `Option`, the value of a bus call or lookup that may fail.
- `ascii_case.dfy` (`AsciiCase`): `::tolower` in the "C" locale and the
  `std::transform` loop that lower-cases a title. Also the case laws:
  length is kept, non-letters are unchanged, lower-casing is idempotent and
  distributes over concatenation.
- `ad_detect.dfy` (`AdDetect`): `std::string::find` as a search loop, and
  `is_ad` as lower-casing followed by a search for `"advertisement"`.
  `DetectAd` is proved to agree with the predicate `IsAd`, "the lower-cased
  title contains the word". `Find` is proved to return the first occurrence,
  or `None` exactly when there is none. The lemmas cover case insensitivity, short titles, context around
  an ad title, and a window-by-window reading of the verdict.
- `muter.dfy` (`Muter`): the per-player decision `Decide` and one poll
  `MonitorAndMute`. A `Probe` holds what the bus answered for one listed name:
  an optional metadata dictionary and an optional volume. The output of a poll
  is the list of `set_player_volume` requests it issues, in order.

The volume is a `real`. The code only compares it with `0.0` and only writes
the constants `0.0` and `1.0`, so no floating-point arithmetic is involved.

## Model

| member | source | states |
|---|---|---|
| AsciiCase.ToLower | spotify-muter.cpp:10 | `::tolower` maps `A`-`Z` to the matching lower-case letter and leaves every other character alone; its result is never an upper-case letter |
| AsciiCase.Lower | spotify-muter.cpp:10 | lower-casing a title keeps its length, leaves no upper-case letter, and changes only the upper-case letters |
| AsciiCase.TransformToLower | spotify-muter.cpp:9-10 | the in-place `std::transform` loop produces exactly the lower-cased title |
| AsciiCase.LowerIdempotent | spotify-muter.cpp:10 | lower-casing an already lower-cased title changes nothing |
| AsciiCase.CaseVariantIff | spotify-muter.cpp:10 | two characters are equal or the two cases of one ASCII letter exactly when `::tolower` maps them to the same character |
| AsciiCase.SameUpToCaseIff | spotify-muter.cpp:10 | two titles differ only in the case of ASCII letters, position by position, exactly when they have the same length and equal lower-cased forms |
| AdDetect.Find | spotify-muter.cpp:11 | `find` returns the first position where the word occurs; it returns `npos` (`None`) exactly when the word occurs nowhere |
| AdDetect.DetectAd | spotify-muter.cpp:8-12 | `is_ad` holds exactly when the lower-cased title contains "advertisement" as a contiguous substring |
| AdDetect.IsAdIffWindow | spotify-muter.cpp:8-11 | a title is an ad exactly when some 13-character window of the original title spells "advertisement" in any letter case |
| AdDetect.ShortTitleIsNotAd | spotify-muter.cpp:11 | a title shorter than 13 characters, the empty title included, is never an ad |
| AdDetect.AdSurvivesContext | spotify-muter.cpp:11 | if a title is an ad, then so is that title with any prefix and any suffix around it |
| AdDetect.IsAdIgnoresCase | spotify-muter.cpp:10-11 | a title and its lower-cased form get the same verdict |
| AdDetect.SameUpToCaseSameVerdict | spotify-muter.cpp:10-11 | two titles that differ only in letter case get the same verdict |
| AdDetect.FlipOneKeepsVerdict | spotify-muter.cpp:10-11 | changing the case of any one character of a title keeps the verdict |
| AdDetect.DetectedExamples | spotify-muter.cpp:8-12 | "Advertisement", "ADVERTISEMENT break" and "an advertisement now" are ads |
| AdDetect.NotDetectedExamples | spotify-muter.cpp:8-12 | "Ad break", the empty title and "Advert isement" are not ads |
| Muter.Title | spotify-muter.cpp:74-76 | the title lookup succeeds exactly when `xesam:title` is present and holds a string, and then yields that string |
| Muter.Decide | spotify-muter.cpp:63-99 | the only decisions are no action, volume 0.0 and volume 1.0; any request needs a media-player name and a title; volume 0.0 is chosen exactly for a media player whose title is an ad |
| Muter.UnmuteIff | spotify-muter.cpp:80-97 | volume 1.0 is chosen exactly for a media player with a non-ad title whose volume reads back as 0.0 |
| Muter.NonPlayerIgnored | spotify-muter.cpp:63 | a name without the `org.mpris.MediaPlayer2.` prefix never leads to a request, whatever its metadata and volume |
| Muter.MissingTitleIgnored | spotify-muter.cpp:71-76 | missing metadata, or metadata without a string title, leads to no request |
| Muter.AdAlwaysMutes | spotify-muter.cpp:77-79 | a media player with an ad title is muted, and the decision does not change whatever the volume read would have returned |
| Muter.ContentUnmutesOnlyAtZero | spotify-muter.cpp:80-97 | for a non-ad title, volume 1.0 is requested exactly when the volume reads as 0.0; any other volume, or a failed read, leads to no request |
| Muter.AdThenContentRestores | spotify-muter.cpp:77-94 | over two polls, a player muted for an ad whose volume then reads 0.0 under a non-ad title is set back to 1.0 |
| Muter.CommandsFor | spotify-muter.cpp:77-94 | a player issues at most one request, for its own name, with the level its decision chose, and none when no action is decided |
| Muter.Actions | spotify-muter.cpp:62-105 | a poll decides once per listed name, in listing order, and each decision depends only on that name's own probe |
| Muter.Commands | spotify-muter.cpp:62-105 | a poll issues no more requests than names are listed; every request is the one some listed player's own decision leads to, for that player's name, so it is for a media-player name and sets either 0.0 or 1.0 |
| Muter.CommandsFollowActions | spotify-muter.cpp:62-105 | the requests of a poll are, in listing order, one request per decision other than no action, for the name that decision was made for and at the level it chose |
| Muter.MonitorAndMute | spotify-muter.cpp:49-107 | a failed `ListNames` issues nothing; otherwise the loop over the names issues exactly the poll's requests, in order |
| Muter.CommandsConcat | spotify-muter.cpp:62-105 | the requests for two consecutive runs of names are the first run's requests followed by the second's |
| Muter.PlayersIndependent | spotify-muter.cpp:62-105 | what one player contributes to a poll does not depend on the names listed before or after it |
| Muter.CommandIssuedIff | spotify-muter.cpp:62-105 | a request appears in a poll's output exactly when some listed player's own decision leads to it |
| Muter.IssuedIsInCommands | spotify-muter.cpp:62-105 | the request any listed player's decision leads to is issued by the poll; no listed player is skipped |

## Left out

- The D-Bus calls (`ListNames`, the property `Get` and `Set` calls) and the GVariant packing and unpacking are left out (spotify-muter.cpp:15-47, 51-59, 65-73, 82-90). They are library calls. Their outcomes are inputs to the model: an optional listing, optional metadata and an optional volume.
- `set_player_volume` itself is left out (spotify-muter.cpp:15-47). A poll's result is the list of requests it makes. A failed `Set` only logs an error and changes no decision.
- Logging to standard output and standard error is left out (spotify-muter.cpp:42, 78, 92). It is output only.
- Reference counting and freeing (`g_variant_unref`, `g_free`, `g_variant_iter_free`) are left out. They carry no behaviour.
- `main`, the endless loop and the one-second `usleep` are left out (spotify-muter.cpp:110-123). So are the bus connection and the exit code 1 when it cannot be opened. Each poll is stateless, so a run is just the same poll repeated on fresh inputs. `AdThenContentRestores` relates two consecutive polls.
- The bus answers are read at different moments: the metadata before the volume. The model takes them as one snapshot per name.
- Titles are Dafny strings, sequences of Unicode characters, while the C++ code works on the UTF-8 bytes of the title. The verdict is the same either way: the search word is ASCII, UTF-8 never uses a byte below 0x80 inside a multi-byte character, and `tolower` in the "C" locale leaves bytes from 0x80 up unchanged.
- AsciiCase.ToLower: only ASCII `A`-`Z` are folded. Characters outside ASCII are left unchanged, as the "C" locale does. Passing a negative `char`, such as a UTF-8 byte on a platform where `char` is signed, to `::tolower` is undefined behaviour in C++, and this is not modelled.
- Muter.Decide: the volume is a mathematical real. NaN is not modelled; it would compare unequal to 0.0 and fall under "any other volume". Negative zero is not modelled either; it compares equal to 0.0, like the real 0.0.
- Muter.Decide: reading a volume that is not a double would return 0.0 from `g_variant_get_double`. This is not modelled. A volume `Get` either fails (`None`) or yields a number.
- A metadata property that is not a dictionary is not modelled. The metadata is always a map from keys to values.
