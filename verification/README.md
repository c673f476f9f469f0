# Customer scanner: reconciliation session

A Dafny model of the logic inside the scanner app's single screen
(`MainActivity.kt`): a receipt's list of expected tag UIDs is loaded from a
remote store, NFC tags are read and their UIDs collected, and a verify
button compares the two lists; on a match every scanned UID is deleted from
the remote inventory, one request per UID, a failure on one not stopping
the rest.

The model is a pure state machine over
`Session(receiptId, expected: seq<string>, scanned: seq<string>)`:

- `hex_uid.dfy` (`HexUid`): a tag id, a sequence of signed Kotlin bytes,
  rendered as `"%02X"` per byte; its decoder and the round trip.
- `normalize.dfy` (`Normalize`): `trim().uppercase()` on ASCII whitespace
  and ASCII letters; idempotence and the canonical strings as its fixed points.
- `lex_sort.dfy` (`LexSort`): `String.compareTo` order, `sorted()`, and the
  uniqueness of a sorted arrangement.
- `session.dfy` (`Session`): tag reads, the load button with the fetch
  completion, verify, the deactivation batch, and the session as a state
  machine over events with its invariant.
- `scenarios.dfy` (`Scenarios`): concrete runs.
- `wrappers.dfy` (`Wrappers`): `Option`.

Remote calls are oracle parameters: the receipt fetch is
`string -> Option<seq<string>>` (`None` for any connection, HTTP or JSON
failure), and a delete is `string -> bool`, true when the request completed
without an exception. A non-2xx response to a delete is only logged by the
app, so it counts as completed.

In these places the code behaves differently from what a reader might
expect, and the model follows the code:

- Verify compares the sorted normalised lists element by element, so it is
  multiset equality, not set equality: the expected list is never
  deduplicated, and a receipt listing one UID twice can never match in a
  reachable session, because a tag is recorded only once
  (`Session.MatchNeedsDistinctExpected`).
- A fetch that returns an empty JSON array counts as a successful load, and
  such a receipt verifies at once (`Session.EmptyReceiptVerifies`).
- A failed fetch leaves both the expected and the scanned list as they were;
  only a successful one clears the scanned list.
- The load guard tests the untrimmed text for emptiness, so a field holding
  only whitespace is fetched under the empty key
  (`Session.BlankTextFetchesEmptyKey`).
- Scanned UIDs are deduplicated on their raw hex rendering, which is already
  canonical (`Normalize.UidIsCanonical`), and deactivation uses the raw
  scanned strings.
- Deactivation outcomes are only logged by the app; the model returns them
  as a list of attempts, with `Session.Failed` naming the UIDs whose delete
  request raised an exception; a non-2xx answer is not a failure.

## Model

| member | source | states |
|---|---|---|
| HexUid.Unsigned | CUSTOMERSCANNER/app/src/main/java/com/example/customerscanner/MainActivity.kt:131 | the value `%X` prints for a signed byte lies in 0..255 and is congruent to the byte modulo 256 |
| HexUid.ByteHex | CUSTOMERSCANNER/app/src/main/java/com/example/customerscanner/MainActivity.kt:131 | one byte becomes exactly two upper-case hex digits whose value, high digit first, is the unsigned byte |
| HexUid.Encode | CUSTOMERSCANNER/app/src/main/java/com/example/customerscanner/MainActivity.kt:131 | a tag id of n bytes becomes a UID of exactly 2n characters, all from 0-9A-F |
| HexUid.Decode | CUSTOMERSCANNER/app/src/main/java/com/example/customerscanner/MainActivity.kt:131 | the inverse reading succeeds exactly on strings of even length made of 0-9A-F, giving half as many bytes |
| HexUid.DecodeEncode | CUSTOMERSCANNER/app/src/main/java/com/example/customerscanner/MainActivity.kt:131 | decoding the UID of any tag id gives back that tag id |
| HexUid.EncodeDecode | CUSTOMERSCANNER/app/src/main/java/com/example/customerscanner/MainActivity.kt:131 | every well-formed UID is the rendering of the bytes it decodes to |
| HexUid.EncodeInjective | CUSTOMERSCANNER/app/src/main/java/com/example/customerscanner/MainActivity.kt:131 | distinct tag ids are rendered as distinct UIDs |
| Normalize.TrimStartSpec | CUSTOMERSCANNER/app/src/main/java/com/example/customerscanner/MainActivity.kt:97 | `Normalize.TrimStart`: the result is the suffix of the input starting at its first non-whitespace character; all that is removed is whitespace |
| Normalize.TrimEndSpec | CUSTOMERSCANNER/app/src/main/java/com/example/customerscanner/MainActivity.kt:97 | `Normalize.TrimEnd`: the result is the prefix of the input ending at its last non-whitespace character; all that is removed is whitespace |
| Normalize.TrimSpec | CUSTOMERSCANNER/app/src/main/java/com/example/customerscanner/MainActivity.kt:75 | `Normalize.Trim` (Kotlin `trim()`): `trim()` yields a contiguous slice of the input with no whitespace at either end, having removed only whitespace |
| Normalize.TrimAllSpace | CUSTOMERSCANNER/app/src/main/java/com/example/customerscanner/MainActivity.kt:75 | a string of whitespace trims to the empty string |
| Normalize.UpperSpec | CUSTOMERSCANNER/app/src/main/java/com/example/customerscanner/MainActivity.kt:97 | `Normalize.Upper` (Kotlin `uppercase()`, via `Normalize.UpperChar`): `uppercase()` turns each lower-case letter a–z into its capital A–Z, keeps every other character in place, so leaves no lower-case letter and maps whitespace to whitespace |
| Normalize.NormalizeCanonical | CUSTOMERSCANNER/app/src/main/java/com/example/customerscanner/MainActivity.kt:97-98 | `Normalize.Normalize`: `trim().uppercase()` yields a canonical string: no whitespace at either end and no lower-case letter |
| Normalize.CanonicalIffFixed | CUSTOMERSCANNER/app/src/main/java/com/example/customerscanner/MainActivity.kt:97-98 | a string is canonical if and only if normalising leaves it unchanged |
| Normalize.NormalizeIdempotent | CUSTOMERSCANNER/app/src/main/java/com/example/customerscanner/MainActivity.kt:97-98 | normalising twice equals normalising once |
| Normalize.NormalizeIgnoresCase | CUSTOMERSCANNER/app/src/main/java/com/example/customerscanner/MainActivity.kt:97-98 | upper-casing an entry first does not change its normalised form |
| Normalize.NormalizeIgnoresSpace | CUSTOMERSCANNER/app/src/main/java/com/example/customerscanner/MainActivity.kt:97-98 | whitespace padding on either side of an entry does not change its normalised form |
| Normalize.UidIsCanonical | CUSTOMERSCANNER/app/src/main/java/com/example/customerscanner/MainActivity.kt:131 | every hex-rendered UID is a fixed point of normalisation |
| LexSort.LexLeTotal | CUSTOMERSCANNER/app/src/main/java/com/example/customerscanner/MainActivity.kt:97 | `LexSort.LexLe` (`String.compareTo`): any two strings are comparable in the order `sorted()` uses |
| LexSort.LexLeAntisymmetric | CUSTOMERSCANNER/app/src/main/java/com/example/customerscanner/MainActivity.kt:97 | two strings each at most the other are equal, so the order decides every tie |
| LexSort.LexLeTransitive | CUSTOMERSCANNER/app/src/main/java/com/example/customerscanner/MainActivity.kt:97 | the string order is transitive |
| LexSort.Insert | CUSTOMERSCANNER/app/src/main/java/com/example/customerscanner/MainActivity.kt:97 | inserting into a sorted list gives a sorted list holding one more occurrence of the new element |
| LexSort.Sort | CUSTOMERSCANNER/app/src/main/java/com/example/customerscanner/MainActivity.kt:97-98 | `sorted()` returns a sorted permutation of its input |
| LexSort.SortedUnique | CUSTOMERSCANNER/app/src/main/java/com/example/customerscanner/MainActivity.kt:103 | two sorted lists with the same elements and multiplicities are equal |
| LexSort.SortedEqualIffSameElements | CUSTOMERSCANNER/app/src/main/java/com/example/customerscanner/MainActivity.kt:103 | comparing two sorted lists with `==` is the same as comparing their multisets, in both directions |
| Session.AddScan | CUSTOMERSCANNER/app/src/main/java/com/example/customerscanner/MainActivity.kt:133-135 | the scanned list keeps its entries and their order, grows at the end by at most one, gains exactly the new UID, stays duplicate-free, and is unchanged when the UID is already there |
| Session.ScanTag | CUSTOMERSCANNER/app/src/main/java/com/example/customerscanner/MainActivity.kt:129-136 | a tag read changes only the scanned list; a tag without an id changes nothing; otherwise the tag's UID is then in the list |
| Session.ScanTagIdempotent | CUSTOMERSCANNER/app/src/main/java/com/example/customerscanner/MainActivity.kt:133-135 | reading the same tag twice gives the same session as reading it once |
| Session.ApplyFetch | CUSTOMERSCANNER/app/src/main/java/com/example/customerscanner/MainActivity.kt:162-176 | a successful fetch sets the expected list to the fetched list exactly and empties the scanned list; a failed fetch leaves the session unchanged; the reported status tells which |
| Session.Load | CUSTOMERSCANNER/app/src/main/java/com/example/customerscanner/MainActivity.kt:74-85 | an empty field leaves the session untouched and reports invalid input; otherwise the trimmed text is the receipt id and the fetch key, and the fetch outcome decides the rest |
| Session.BlankTextFetchesEmptyKey | CUSTOMERSCANNER/app/src/main/java/com/example/customerscanner/MainActivity.kt:74-75 | a field of whitespace passes the guard and is fetched under the empty key |
| Session.VerifyAfterLoad | CUSTOMERSCANNER/app/src/main/java/com/example/customerscanner/MainActivity.kt:163-170 | right after a successful load, verify matches exactly when the receipt's list is empty |
| Session.EmptyReceiptVerifies | CUSTOMERSCANNER/app/src/main/java/com/example/customerscanner/MainActivity.kt:162-170 | an empty JSON array loads successfully and the session then verifies with nothing scanned |
| Session.MapSeqPermutation | CUSTOMERSCANNER/app/src/main/java/com/example/customerscanner/MainActivity.kt:97-98 | mapping a function over two permutations of a list gives two permutations |
| Session.NormalizeAllPermutation | CUSTOMERSCANNER/app/src/main/java/com/example/customerscanner/MainActivity.kt:97-98 | `Session.NormalizeAll` (the `map` over each list): normalising the entries of two permutations gives two permutations |
| Session.Verify | CUSTOMERSCANNER/app/src/main/java/com/example/customerscanner/MainActivity.kt:97-103 | both logged lists are sorted permutations of the normalised lists, and the verdict is a match exactly when the normalised lists are equal as multisets |
| Session.VerifyIgnoresOrder | CUSTOMERSCANNER/app/src/main/java/com/example/customerscanner/MainActivity.kt:97-103 | permuting either list does not change the verdict |
| Session.MatchSameLength | CUSTOMERSCANNER/app/src/main/java/com/example/customerscanner/MainActivity.kt:103 | a match implies the two lists have the same length |
| Session.Deactivate | CUSTOMERSCANNER/app/src/main/java/com/example/customerscanner/MainActivity.kt:181-195 | exactly one delete attempt per UID, in list order, each recording the oracle's answer for that UID, whatever earlier attempts returned |
| Session.VerifyAndDeactivate | CUSTOMERSCANNER/app/src/main/java/com/example/customerscanner/MainActivity.kt:95-110 | the verdict logged is that of verify (both sorted normalised lists and the match); deletes are attempted only on a match, and then once for each scanned UID in order; a mismatch attempts none |
| Session.Failed | CUSTOMERSCANNER/app/src/main/java/com/example/customerscanner/MainActivity.kt:190-192 | the failed UIDs are exactly those of the attempts whose delete did not go through |
| Session.FailedConcat | CUSTOMERSCANNER/app/src/main/java/com/example/customerscanner/MainActivity.kt:183-192 | the failures are reported in the order the deletes were attempted: the report for two runs in sequence is the first run's followed by the second's |
| Session.RunKeepsValid | CUSTOMERSCANNER/app/src/main/java/com/example/customerscanner/MainActivity.kt:133-135 | `Session.Step` (the tag-read, load and verify handlers) and `Session.Run`: after any sequence of tag reads, loads and verifies the scanned list has no repeats and holds only hex-rendered UIDs |
| Session.ScannedAreCanonical | CUSTOMERSCANNER/app/src/main/java/com/example/customerscanner/MainActivity.kt:98 | in a reachable session normalising the scanned list changes nothing |
| Session.MatchNeedsDistinctExpected | CUSTOMERSCANNER/app/src/main/java/com/example/customerscanner/MainActivity.kt:97-103 | in a reachable session a match requires the normalised expected entries to be pairwise distinct |
| Scenarios.LowerCaseReceiptMatchesTag | CUSTOMERSCANNER/app/src/main/java/com/example/customerscanner/MainActivity.kt:97-103 | loading a receipt listing `" 0a1b2c "` and reading the tag with bytes 0A 1B 2C verifies |
| Scenarios.SignedByteExample | CUSTOMERSCANNER/app/src/main/java/com/example/customerscanner/MainActivity.kt:131 | bytes -1, 0, 17 render as `FF0011` |
| Scenarios.DeactivationExample | CUSTOMERSCANNER/app/src/main/java/com/example/customerscanner/MainActivity.kt:183-192 | with A1's request completing and B2's request raising an exception, both are attempted in order and B2 alone is reported as failed |

## Left out

- NFC adapter setup, foreground dispatch, intent filtering and the activity
  lifecycle (`onCreate`, `onNewIntent`, `onResume`, `onPause`): a tag read is
  the event `TagRead` carrying the tag's id, or none when the intent has no tag.
- The Compose UI and its message strings: the load outcome is the status
  `Loaded`, `LoadFailed` or `InvalidInput`, the verify outcome the `Verdict`.
- HTTP connections, the store's URLs, response codes and JSON parsing: the
  fetch is an oracle returning `Option<seq<string>>`, a delete an oracle
  returning whether it went through.
- Coroutine dispatch and the mutation of the lists from the IO thread,
  including an expected list left partly filled when parsing fails midway
  through the array, and a scan arriving while a load is in flight: each
  fetch is one atomic step, and the list handed to the delete loop is a
  snapshot.
- Kotlin's full Unicode `trim()` and `uppercase()`: only ASCII whitespace
  (space, 9-13, 28-31) and ASCII letters are modelled; characters such as
  U+00A0 or `ß` are treated as ordinary characters.
- `String.compareTo` compares UTF-16 code units, the model compares Unicode
  scalar values; the two orders differ only on characters outside the Basic
  Multilingual Plane, and any total order gives the same verdict because a
  multiset has one sorted arrangement.
- The delete oracle answers per UID rather than per request; since the
  scanned list never repeats a UID, each UID is asked once.
- Logging calls.
