# Verification of b255, the cersei_rs stream filter and the psl trie

Three algorithms of the repository, modelled in Dafny and proved.

**b255** (`Positional`, `Vectors`, `B255Util`, `B255Codec`, `B255Encode`, `B255Decode`). The codec reads a byte
string as a big-endian number in 64-bit limbs, divides in place by 255 until nothing is left, and maps digit 58
to 255 so that no colon appears; decoding is Horner's rule and a minimal big-endian write. `B255Codec` says what
the two transformations mean and proves that they are a bijection between all byte strings and all colon-free
byte strings, with exact bounds on the length. The other modules are the program's own loops over a growable
vector, proved to compute exactly those functions, with every unchecked index in bounds, every 64- and 128-bit
step free of overflow, and no vector ever reallocated. `Vectors.Vec.reallocs` counts reallocations, and a vector made
with a capacity gets just that capacity, the least the standard library promises.

**cersei_rs stream** (`StreamFilter`, `StreamLaws`, `StreamRun`, `StreamRunLaws`, `StreamSource`). `delta` holds
newlines back, `run` drives it over an agent's events, and `next` trims once more. The filter is proved equal to a reference
without a buffer: reorder each piece's trailing whitespace (spaces and tabs before newlines), join, and drop the
segment's final newlines. From that follow conservation, the order that is kept, when the cutting of the text
shows, under which kind each newline arrives, and exactly when the reader sees the agent's own text, for every
event sequence. What a receiver that goes away early saw is a prefix of what it would have seen.

**psl** (`PslRules`, `PslTrie`, `PslCompress`, `PslLookup`, `PslReference`). The generator inserts rules into a
trie of objects on the heap and compresses it recursively, consuming the `$` marks; the lookup walks the
compressed form. The generated trie is proved to hold exactly the table of the rules, in which a later rule
replaces an earlier one with the same labels. `PslReference` states the published public-suffix algorithm on the
rules of the list, replaced or not, and compares the lookup with it, from the lines of the list to the string
that comes back.

Where the code and its documentation disagree, the model follows the code:

* The psl documentation promises the longest valid public suffix. The lookup gives it exactly when none of four
  things happens (`LookupMeetsReference`), each with an input that shows it: the exception that should prevail
  was replaced by a later rule with its labels (`LostExceptionShows`), or, no exception being there, a wildcard
  was replaced (`LostWildcardShows`), a wildcard is left behind through a label that has no rule of its own
  (`DetourShows`), or the host is a wildcard's own name below a rule further up (`BareWildcardShows`).
  `ListsThatMeet` says on which lists every lookup is right. A host that no rule matches comes back whole, as IP
  addresses must; where the published algorithm would fall back to its default rule, `DefaultRuleMissed` says
  exactly what that adds.
* The comments on `delta` promise that held newlines are put out before the next text. An empty piece puts them
  out alone, and `next` then drops them (`LossExactly`, `AnEmptyPieceLoses`); and a newline before a blank in a
  piece's trailing whitespace moves behind it (`BlankMovesInRun`). `SourceExactly` says that nothing else
  changes the text.

## Model

| member | source | states |
|---|---|---|
| B255Codec.RoundTrip | b255/src/encode.rs:23-59 | decoding an encoding gives the data back, for every byte string: empty, all zeros, any run of leading zeros |
| B255Codec.RoundTripBack | b255/src/decode.rs:68-109 | every colon-free string is the encoding of what it decodes to |
| B255Codec.Bijection | b255/src/decode.rs:75-108 | decoding gives `data` if and only if the input is the encoding of `data`, and fails if and only if the input has a colon |
| B255Codec.Encoded | b255/src/encode.rs:45-58 | no encoding contains byte 58 |
| B255Codec.EncodedBytes | b255/src/encode.rs:45-58 | every byte of an encoding: digit i in base 255 of the core's value, with 255 for 58, up to the last digit that is not zero; then a zero for each zero the data starts with; never 58 |
| B255Codec.DecodeRejectsColon | b255/src/decode.rs:89-93 | decoding fails, with byte 58, if and only if byte 58 is in the input |
| B255Codec.LeadingZeros | b255/src/encode.rs:31-32 | the maximal run of zeros at the start |
| B255Codec.TrailingZeros | b255/src/decode.rs:75-76 | the maximal run of zeros at the end |
| B255Codec.TrailingZerosOfPadded | b255/src/decode.rs:75-80 | the zeros appended after a non-zero last digit are exactly the ones counted and removed |
| B255Codec.ToDigit | b255/src/decode.rs:89-93 | undoes the remapping of digits to bytes |
| B255Codec.ExtraDigits | b255/src/encode.rs:43 | 256^n <= 255^(n + n/256 + 1) for every n |
| B255Codec.EncodedLength | b255/src/encode.rs:43-55 | an encoding is never shorter than its data, and longer by at most one byte and one per 256 core bytes, three less than is reserved |
| B255Codec.EncodingGrows | b255/src/encode.rs:43-55 | encoding adds no byte if and only if the core's value is below 255 to the power of its length |
| Positional.DigitsEval | b255/src/encode.rs:45-51 | digit sequences without a zero at the top are unique: digits of the value are the digits |
| Positional.DigitsLength | b255/src/encode.rs:43 | a number has at most m digits if and only if it is below base^m |
| Positional.DigitAt | b255/src/encode.rs:45-51 | digit i is the number divided by the i-th power of the base, modulo the base |
| Positional.BytesValueAt | b255/src/util.rs:6-24 | the value of a byte string is the big-endian one: below 256 to its length, and each byte is a digit of it |
| Vectors.Vec.Push | b255/src/encode.rs:50 | appends, and reallocates exactly when the capacity is used up |
| Vectors.Vec.Resize | b255/src/encode.rs:55 | extends with copies, reallocating only past the capacity |
| B255Util.FromBytesBe | b255/src/util.rs:6-24 | the limbs have the value of the bytes, fill the reserved capacity exactly, and are canonical when the first byte is not zero |
| B255Util.ChunkValue | b255/src/util.rs:16-19 | the shift-or loop computes the value of a short chunk with nothing shifted out |
| B255Util.DivLimb | b255/src/util.rs:29-36 | both branches compute quotient and remainder of one limb by 255 within 64 bits |
| B255Util.DivRem255 | b255/src/util.rs:26-42 | the number becomes its quotient by 255 in place, the result is the remainder, and the limbs are canonical |
| B255Util.TrimTop | b255/src/util.rs:38-40 | dropping zero limbs keeps the value and makes the limbs canonical |
| B255Util.CanonicalZero | b255/src/encode.rs:45 | the loop's test is exactly that the value is zero |
| B255Encode.EmitDigits | b255/src/encode.rs:45-51 | the loop ends, and appends the remapped base-255 digits of the value without reallocating |
| B255Encode.Encode | b255/src/encode.rs:23-59 | computes `Encoded`, reserving exactly the capacity the code asks for, with no reallocation in any push or resize |
| B255Decode.LastBytesExact | b255/src/decode.rs:13 | the leading-zero count gives the exact byte width of a limb |
| B255Decode.ByteLenExact | b255/src/decode.rs:98-102 | the length allotted is that of the shortest bytes of a canonical number |
| B255Decode.WriteBytes | b255/src/decode.rs:17-24 | the byte loop writes the low bytes of a limb and nothing else, every index being inside the slice |
| B255Decode.WriteLimb | b255/src/decode.rs:25-32 | the eight bytes of a limb are written inside the slice and nothing else |
| B255Decode.WriteBytesBe | b255/src/decode.rs:6-34 | given room for the number in the slice, fills exactly the slice's end with its big-endian bytes, whatever the limbs, every index being inside the slice |
| B255Decode.MulAdd255 | b255/src/decode.rs:36-46 | value v becomes 255 * v + add, for any limbs and any 64-bit add; canonical limbs stay canonical; the vector is replaced only if it outgrows its capacity |
| B255Decode.LimbCount | b255/src/decode.rs:82 | a canonical number below 255^k has at most ceil(k/8) limbs |
| B255Decode.Horner | b255/src/decode.rs:82-96 | stops exactly on a colon, else gives the value of the digits, canonical and within the ceil(k/8) limbs reserved |
| B255Decode.PaddedBytes | b255/src/decode.rs:98-108 | the result is the zeros and then the shortest bytes of the number |
| B255Decode.Decode | b255/src/decode.rs:68-109 | computes `Decoded` |
| StreamFilter.TrimLenBy | cersei_rs/src/stream.rs:81-87 | the longest prefix that ends outside the class |
| StreamFilter.Compact | cersei_rs/src/stream.rs:109-124 | the in-place loop keeps the body, moves the spaces and tabs up behind it and the newlines to the buffer, each in order |
| StreamFilter.Delta | cersei_rs/src/stream.rs:92-131 | all three branches are one step: a piece of newlines is held, anything else is sent behind the held newlines |
| StreamLaws.StepOfNewlines | cersei_rs/src/stream.rs:103-107 | a non-empty piece of bytes 10 and 13 alone is held and nothing is sent |
| StreamLaws.StepOfText | cersei_rs/src/stream.rs:62-131 | any other piece is sent behind what was held: up to its last byte outside 9, 10, 13 and 32, then the 9s and 32s after it; the 10s and 13s after it are held; each in order |
| StreamLaws.StepSendsSolid | cersei_rs/src/stream.rs:92-131 | what a non-empty piece sends is non-empty and does not end in a newline |
| StreamLaws.Conservation | cersei_rs/src/stream.rs:92-131 | for any pieces, sent text and held text together are exactly the reordered pieces |
| StreamLaws.HoldsNewlines | cersei_rs/src/stream.rs:92-131 | in every reachable state only newlines are held |
| StreamLaws.BatchForm | cersei_rs/src/stream.rs:92-131 | for non-empty pieces, the text sent is the joined reordered pieces less their final newlines |
| StreamLaws.ReorderProjects | cersei_rs/src/stream.rs:109-124 | reordering a piece is invisible once blanks are ignored, or newlines are |
| StreamLaws.OrderKept | cersei_rs/src/stream.rs:92-131 | over any pieces the order is kept under both projections |
| StreamLaws.ReorderIdentity | cersei_rs/src/stream.rs:109-124 | a piece is left as it is if and only if its trailing whitespace has no newline before a blank |
| StreamLaws.ChunkingIndependence | cersei_rs/src/stream.rs:92-131 | the text sent is the whole text less its final newlines, however it was cut, if and only if every piece is in order |
| StreamLaws.CuttingShows | cersei_rs/src/stream.rs:103-124 | the smallest text for which the cut shows |
| StreamRun.Sender.Send | cersei_rs/src/stream.rs:139 | a send fails once the receiver is gone, and then changes nothing |
| StreamRun.Run | cersei_rs/src/stream.rs:133-166 | sends the messages of the events in order, up to the first send that fails |
| StreamRun.AgentStream.Next | cersei_rs/src/stream.rs:28-58 | hands over the first message that is not text of bytes 10 and 13 alone: text of the same kind cut after its last other byte, a tool call or failure unchanged; leaves what follows it, and is at the end only when no such message is left |
| StreamRunLaws.OthersDelivered | cersei_rs/src/stream.rs:48-53 | for any queue, every tool call and every failure is handed over, in order and unchanged |
| StreamRunLaws.NothingAfterComplete | cersei_rs/src/stream.rs:158-161 | events after completion send nothing, and completion sends nothing |
| StreamRunLaws.RestartsAtCall | cersei_rs/src/stream.rs:151-157 | a tool call is sent after everything before it, and what follows is sent as in a run of its own |
| StreamRunLaws.EndToEnd | cersei_rs/src/stream.rs:28-166 | for every event sequence the reader sees the reference without a buffer |
| StreamRunLaws.StreamIsBatch | cersei_rs/src/stream.rs:133-166 | the same from any point of a segment |
| StreamRunLaws.TrimmingIsIdle | cersei_rs/src/stream.rs:32-47 | the second filter changes nothing if and only if no piece is empty |
| StreamRunLaws.InkConserved | cersei_rs/src/stream.rs:133-166 | apart from newlines, every byte is delivered once, in order, as its own kind and between the same tool calls |
| StreamRunLaws.FlushedIsShorter | cersei_rs/src/stream.rs:95-100 | an empty piece never adds text, and what it drops is missing for good |
| StreamRunLaws.LossExactly | cersei_rs/src/stream.rs:89-101 | the reordered text of every segment arrives up to its final newlines if and only if no empty piece drops newlines that the segment goes on after; where one does, the text is shorter |
| StreamRunLaws.AnEmptyPieceLoses | cersei_rs/src/stream.rs:95-100 | the smallest loss |
| StreamSource.SourceExactly | cersei_rs/src/stream.rs:28-166 | for every event sequence the reader sees the agent's own text of each segment, less its final newlines, if and only if no empty piece drops newlines the segment goes on after and every piece has its trailing whitespace in order |
| StreamSource.OrderExactly | cersei_rs/src/stream.rs:109-124 | reordering never lengthens what is seen of a run, and shows unless every piece is in order |
| StreamSource.BlankMovesInRun | cersei_rs/src/stream.rs:109-124 | a run without empty pieces in which a blank changes place |
| StreamSource.SegmentsAreCutShort | cersei_rs/src/stream.rs:151-161 | ignoring spaces and tabs, what is seen between tool calls is the agent's text there up to newlines at its end, unless an empty piece dropped inner newlines |
| StreamSource.NoEmptyPieceNoLoss | cersei_rs/src/stream.rs:92-131 | a run without empty pieces drops no inner newlines |
| StreamSource.EndToEndKinds | cersei_rs/src/stream.rs:137-149 | for every event sequence, a byte that is no newline arrives as its own kind, and a newline as the kind of the text after it |
| StreamSource.SeenWhenCutOff | cersei_rs/src/stream.rs:138-141 | whenever the receiver goes away, what it saw is a prefix of the reference |
| PslRules.JoinSplit | psl/src/_.js:13 | splitting at dots and joining is the identity, and no label has a dot |
| PslRules.SplitJoin | psl/src/_.js:38 | joining labels without dots and splitting again is the identity |
| PslRules.ParseRuleByChars | psl/gen.js:32-39 | type 3 if and only if the line starts with an exclamation mark, 2 if and only if with an asterisk and a dot, else 1; the labels, top-level first, are those of the line after that marker |
| PslRules.ParseRuleExact | psl/gen.js:32-39 | type and labels determine the line |
| PslRules.AcceptedExactly | psl/gen.js:22-30 | a line becomes a rule if and only if it is not empty, does not start with two slashes, and comes after the begin marker with no end marker in between or is allowed; markers and characters written out |
| PslRules.LatestIsARule | psl/gen.js:40-42 | the table has an entry exactly at the paths of rules, and the entry is a rule of the list |
| PslRules.TableIsTheList | psl/gen.js:42 | where no path has two types, the table says exactly which rules there are |
| PslRules.UntypedGoesOn | psl/gen.js:41-42 | a node without a type has a child |
| PslTrie.Trie.Child | psl/gen.js:41 | one step down, creating a node only where no path led, keeps the tree |
| PslTrie.Trie.Descend | psl/gen.js:41 | the descent makes known exactly the prefixes of the path and changes no type |
| PslTrie.Trie.Insert | psl/gen.js:40-42 | a trie of some rules becomes the trie of those and this one |
| PslCompress.Compress | psl/gen.js:50-58 | the compressed form has exactly the trie's nodes with their types, each in its shortest shape, and every mark below is consumed and no other |
| PslCompress.FaithfulShape | psl/gen.js:54-57 | number, children and pair are each used just where they say what is needed; only an empty root is 0 |
| PslCompress.Build | psl/gen.js:18-43 | the trie holds exactly the accepted rules |
| PslCompress.Generate | psl/gen.js:18-60 | the generated form encodes the accepted rules |
| PslCompress.LookupIsLatest | psl/gen.js:40-58 | any path looks up the type of the last rule with these labels, or none |
| PslCompress.CompressionIsLossless | psl/gen.js:45-58 | rule lists with the same compressed form have the same nodes and types |
| PslLookup.Walk | psl/src/_.js:14-37 | the loop settles on the shortest exception, else the last rule met, a wildcard reaching on only where the trie ends |
| PslLookup.EndByLabels | psl/src/_.js:13-20 | labels from the top match a host if and only if the host is their text or ends in a dot and their text |
| PslLookup.RootDomain | psl/src/_.js:11-40 | the host itself without a dot or a rule; else the end of the lower-cased host that starts a label and has one label more than the suffix found, or the whole if there are no more |
| PslReference.ReferenceIsLongest | psl/src/_.js:6-10 | every rule of the list that matches bounds the reference: an exception from above, any other from below unless an exception prevails |
| PslReference.ReferenceIsARule | psl/src/_.js:6-10 | the reference is what some matching rule of the list gives |
| PslReference.ReferenceByRules | psl/src/_.js:6-10 | the reference from types 1, 2 and 3 and labels: the shortest matching exception less a label, else the longest normal rule or wildcard with a label more |
| PslReference.MatchesByText | psl/gen.js:32-39 | a rule matches a host if and only if the host is its text or ends in a dot and its text, and for a wildcard is longer |
| PslReference.LookupMeetsReference | psl/src/_.js:18-38 | for every list and host the lookup keeps the labels the published algorithm keeps if and only if the prevailing exception was not replaced and, without an exception, no wildcard was replaced, left behind or named bare |
| PslReference.DefaultRuleMissed | psl/src/_.js:38-39 | with the published default rule for hosts nothing matches, exactly the hosts of more than two labels that no rule matches are missed besides |
| PslReference.ConflictFreeLosesNothing | psl/gen.js:42 | where no path has two types, no rule is lost |
| PslReference.ListsThatMeet | psl/src/_.js:18-38 | every lookup on a list is right if and only if no rule of the list misleads |
| PslReference.DomainMeetsReference | psl/src/_.js:11-40 | the string returned is the published algorithm's if and only if the lookup is on course and, for a wildcard's own name that matches nothing, lower-casing changes nothing |
| PslReference.EndMeetsReference | psl/src/_.js:11-40 | the string returned is the end of the host with one label more than the reference if and only if the lookup is on course; without a reference it is the host as it came unless only a wildcard's own name was found and lower-casing changes it |
| PslReference.LookUpInList | psl/gen.js:18-60 | generator and lookup in series: from the lines of the list to the string, which ends the host with one label more than the reference if and only if the lookup is on course |
| PslReference.DetourShows | psl/src/_.js:21-36 | a wildcard left behind |
| PslReference.BareWildcardShows | psl/src/_.js:31-36 | a wildcard's own name looked up |
| PslReference.LostWildcardShows | psl/gen.js:42 | a wildcard replaced by a later rule |
| PslReference.LostExceptionShows | psl/gen.js:42 | an exception replaced by a later rule |

## Left out

- B255Encode.Encode: does not model the limit of a machine word on lengths and capacities.
- B255Util.FromBytesBe: `from_be_bytes` and `to_be_bytes` are the standard library's and are modelled by their meaning.
- StreamRun.Run: the channel is a sequence of messages and a number after which the receiver is gone; scheduling, back-pressure and waiting are not modelled, and tool input comes already serialised.
- StreamRun.AgentStream.Next: receives from messages already sent; a rejected promise is the message `Err`.
- StreamFilter.Delta: text is bytes and not checked to be UTF-8; only ASCII whitespace is looked at.
- PslCompress.Build: the download, the splitting into lines and their trimming; labels equal to `$` or to an inherited property name.
- PslCompress.Generate: the order of keys in the output and the writing of the file.
- PslLookup.RootDomain: lower-casing is a parameter.
- PslReference.LookupMeetsReference: of several matching exceptions, which the published algorithm does not order, the shortest prevails; its default rule is treated apart, in `DefaultRuleMissed`.
- The packages that wrap foreign calls (autozstd, blake3_cipher, captcha_srv, cert_by_host, axum_cors, axum_graceful_restart) and the release and network scripts: nothing in their own code decides a property.
- The batch iterator of citer and the version comparison of the release script: they would only add easy members.
