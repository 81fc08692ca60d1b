# A verified model of the Apache Portable Runtime's data structures, matcher and codecs

The project models the self-contained C code of APR 1.7.0 in Dafny and proves what that code is for.
Code that works step by step is a method with the same loops, branches and constants; what it
computes is stated by a function or relation of its own, and the laws are proved about that. The
`*Laws.dfy` files and `EntityNames.dfy` say what those functions mean on the text itself, with every
character spelled out.

* **Glob matcher** (`Glob*.dfy`, `Fnmatch.dfy`). `Matches` says declaratively when a pattern matches a
  string, with bracket expressions, escapes, path segments, leading periods and case folding. The
  iterative matcher with its single backtrack point, length cut-off and jump to the tail returns 0
  exactly when the relation holds. `GlobLaws.dfy` reads the relation off the pattern text: what each kind of
  element in front of any pattern stands for.
* **Skip list** (`Places.dfy`, `Towers.dfy`, `Skip*.dfy`, `SortedSeqs.dfy`). The heap of linked nodes is
  described by ghost towers, one column of nodes for each element. The invariant `Valid` fixes every
  `next`, `prev`, `up` and `down` link, the height, the size, the absence of empty rows, and that every
  allocated node is either linked or queued for reuse, once. Coin flips are nondeterministic, so every
  contract holds for every outcome.
* **Hash table** (`Hash*.dfy`). Chains of entries in a growing bucket array, with recycled entries,
  refine a finite map; iteration, deleting on the way, clearing, copying and merging are proved against that map. The hash
  is any function of key and seed: the default one or the caller's.
* **Natural order** (`Nat*.dfy`). The comparison is equal to one on token lists, and that one is a total
  preorder; runs of digits compare as numbers or as decimal fractions. `NatLaws.dfy` says so on strings: behind alike
  beginnings the first difference decides, by character, value or fraction.
* **Codecs** (`Octets.dfy`, `Base64.dfy`, `Base32.dfy`, `Base16.dfy`), sections 3.5 to 8 of RFC 4648.
  Shifts and masks are written as division and remainder. `CodecLaws.dfy` gives every character and octet by its index,
  with the alphabets written out.
* **Escapes** (`CharClasses.dfy`, `UrlEscape.dfy`, `EntityEscape.dfy`, `EchoEscape.dfy`). Writing and
  measuring passes agree, and reading undoes writing, for entities exactly where it can. `EscapeLaws.dfy` and
  `EntityNames.dfy` list what is written for each character and what each sequence is read as.
* **Numbers and formatting** (`Numbers.dfy`, `FileSize.dfy`, `Formats.dfy`, `Formatter.dfy`). Printed numbers
  are read back; file sizes are shown in four characters within a fixed distance of the truth; bounded
  formatting writes the beginning of the unlimited text. Machine widths are explicit. `FormatLaws.dfy` says what a
  directive prints, from flags, width, precision, size and letter as they are written, and that what stands behind it
  is printed independently; `NumberLaws.dfy` reads numbers from their text.
* **Command lines** (`Tokenizer.dfy`). Both passes of the tokenizer find the same arguments. `TokenizerLaws.dfy` cuts
  command lines by their text.

`Basics.dfy` and `CStrings.dfy` hold what the parts share.

Conventions: a plain `char` is a signed byte, a C string is a sequence without NUL that reads NUL at its
end, the octets of the codecs are numbers below 256, and a pointer into a string is an index.
Allocation always succeeds. `apr_hash_make` takes its seed from the clock and an address; here the seed
is a parameter.

## What the code does not do

Some promises of headers and comments do not hold of the code. The model follows the code, shows an
input, and says exactly when the promise is kept.

* Strict decoding (apr-1.7.0/encoding/apr_encode.c:472-479 and 948-955): the scan for padding starts one character
  after the first padding character and can look at the two characters behind the text. Of text with a NUL behind
  it exactly the digits without padding are accepted, if their last group can be complete
  (`Base64.StrictlyAccepted`, `Base32.StrictlyAccepted`, `Base16.StrictlyAccepted`); what an encoder wrote is
  accepted exactly when it wrote no padding (`Base64.RoundTrip`, `Base32.RoundTrip`).
* `APR_ENCODE_NOPADDING` is documented to leave out the padding; the test at apr-1.7.0/encoding/apr_encode.c:290
  takes it for a request for the URL-safe alphabet as well. The text is the padded text without its padding
  exactly when no group is 62 or 63 (`Base64.UnpaddedIsPrefix`, `Base64.UnpaddedNotPrefix`).
* `apr_decode_base16_binary` reads a colon in the second half of a pair as if it were a digit
  (`Base16.SplitPairAccepted`). Of digits and colons exactly the texts that consist of pairs, with any colons
  between them, are accepted and read as the digits they are (`Base16.OnlyPairsAreRead`).
* `apr_escape_entity` is documented to write a character that is not ASCII as a number and a semicolon. It prints
  them into six characters, and the closing NUL takes the place of the semicolon (`EntityEscape.NumericIsCut`).
  Unescaping gives the text back exactly when it was ASCII, or was not to be reduced to ASCII
  (`EntityEscape.RoundTrip`).
* `apr_escape_entity` is documented to write the single quote as `&apos;`, and has a case for it; its table of
  characters to be escaped leaves the single quote out (`EntityEscape.EscapedChars`).
* `apr_strtoi64` looks for overflow in the wrapped product and sum, and can miss it: 21000000000000000000 is read as
  2553255926290448384 (`Numbers.OverflowMissed`). In base 2, and in base 3 without a minus sign, every numeral is read
  as its number, or reported as out of range if the number does not fit; in every other base some numeral is not
  (`Numbers.AlwaysRightly`). The smallest one that is not lies above 2 to the power of 64: in every base all numerals
  below a bound are read rightly (`Numbers.ReadRightly`), and in those bases the bound itself is not (`Numbers.FirstMissed`). Wrapping
  is how common machines do it; C leaves signed overflow undefined.
* For `apr_tokenize_to_argv` a backslash before a closing quote is an escape. A list of arguments comes from some
  command line exactly when none of them but the last ends in a backslash (`Tokenizer.ArgumentLists`,
  `Tokenizer.LastEndsInBackslash`). With all arguments between double quotes and a backslash before each double quote
  and backslash, the list comes back exactly when none of them ends in a backslash (`Tokenizer.QuotingRoundTrip`,
  `Tokenizer.BackslashLost`).
* With `-` and `0` together the formatter adds zeros on the right: "%-05d" prints 12 as 12000
  (`Formats.ZerosOnTheRight`). A left-adjusted directive is filled up with blanks exactly when its padding is a
  blank or nothing is to be filled up (`Formats.LeftFill`).
* `#` before a quad-sized `x` looks at the last number of smaller size: "%x%#qx" prints 0 and 5 as 05
  (`Formats.PrefixMissing`). The text is the right one exactly when that number is zero just when the printed one
  is, and always for other sizes (`Formats.PrefixOfNumber`). The number looked at is the one converted by the last
  directive before it with `o`, `x` or `X` and a smaller size, 0 if there is none (`Formats.OutputPieces`).
* `apr_fnmatch_test` assumes that backslashes escape, as its comment admits (`GlobLiteral.EscapeHidesGlob`). Under
  NOESCAPE a pattern is a plain name exactly when all its elements are literals and separators
  (`GlobLiteral.PlainUnderNoEscape`), so that is when its verdict holds there; without backslashes it holds in
  either mode (`GlobLiteral.GlobFreeInEitherMode`).

## Model

| member | source | states |
|---|---|---|
| `Fnmatch.Fnmatch` | apr-1.7.0/strings/apr_fnmatch.c:194-393 | For every pattern, string and flags the matcher terminates and returns 0 exactly when the declarative relation holds; otherwise it returns the no-match code. |
| `Fnmatch.MatchSegment` | apr-1.7.0/strings/apr_fnmatch.c:252-375 | Working through one segment keeps the answer: what is left of pattern and string matches exactly when the whole did. |
| `Fnmatch.MatchPiece` | apr-1.7.0/strings/apr_fnmatch.c:339-374 | The retry loop with its single backtrack point decides a piece behind a `*` without losing or adding a match. |
| `Fnmatch.ReduceGroup` | apr-1.7.0/strings/apr_fnmatch.c:265-280 | Collapsing runs of `*` and `?` keeps the answer. |
| `Fnmatch.CountFixed` | apr-1.7.0/strings/apr_fnmatch.c:287-336 | The dry run with a dummy string yields the exact number of characters the piece consumes, malformed brackets included, and tells whether it is the last of its segment. |
| `Fnmatch.FnmatchCh` | apr-1.7.0/strings/apr_fnmatch.c:74-191 | One element is judged as the grammar of elements says; how far the pattern advances does not depend on the character, and the string advances by one. |
| `Fnmatch.ScanBracket` | apr-1.7.0/strings/apr_fnmatch.c:84-162 | A bracket expression is recognised exactly when it closes, its end is found, and negation and membership are decided. |
| `Fnmatch.LeadingPeriod` | apr-1.7.0/strings/apr_fnmatch.c:226-237 | A leading period is matched only by an explicit one. |
| `Fnmatch.Slashes` | apr-1.7.0/strings/apr_fnmatch.c:215-223 | Slashes, escaped or not, are passed one for one. |
| `GlobPieces.MatchesPiece` | apr-1.7.0/strings/apr_fnmatch.c:287-336 | A fixed piece followed by anything matches exactly when it fits in front and the rest matches behind it. |
| `GlobPieces.LeftmostFit` | apr-1.7.0/strings/apr_fnmatch.c:339-374 | Between two `*` the leftmost place where the piece fits is as good as any. |
| `GlobPieces.TailJump` | apr-1.7.0/strings/apr_fnmatch.c:297-306 | The last piece of a segment can only sit at the end of the segment. |
| `GlobPieces.TooShort` | apr-1.7.0/strings/apr_fnmatch.c:309-320 | With fewer characters left than the piece needs there is no match. |
| `GlobPieces.StarQuestion` | apr-1.7.0/strings/apr_fnmatch.c:265-280 | A `?` behind a `*` takes one character, wherever in the run it is taken. |
| `GlobLiteral.FnmatchTest` | apr-1.7.0/strings/apr_fnmatch.c:405-434 | When the test finds no glob, the pattern matches the text it spells and nothing else, in escape mode. |
| `GlobLiteral.QuoteMatchesOnlyItself` | apr-1.7.0/strings/apr_fnmatch.c:178-190 | A string with every character behind a backslash is a pattern for exactly that string. |
| `GlobLiteral.SlashesBalance` | apr-1.7.0/strings/apr_fnmatch.c:213-223 | In pathname mode a match has as many slashes in the string as separators in the pattern. |
| `GlobLiteral.EscapeHidesGlob` | apr-1.7.0/strings/apr_fnmatch.c:396-434 | A pattern the test calls plain that matches another string under NOESCAPE. |
| `GlobLiteral.PlainUnderNoEscape` | apr-1.7.0/strings/apr_fnmatch.c:74-191 | Under NOESCAPE a pattern matches its own text and nothing else exactly when every element is a literal or a separator. |
| `GlobLiteral.GlobFreeInEitherMode` | apr-1.7.0/strings/apr_fnmatch.c:405-434 | A pattern the test calls plain is plain under NOESCAPE exactly when all its elements are literals or separators there; without backslashes the verdict holds in either mode. |
| `GlobLaws.EmptyLaw` | apr-1.7.0/strings/apr_fnmatch.c:194-393 | The empty pattern matches the empty string and no other. |
| `GlobLaws.LiteralLaw` | apr-1.7.0/strings/apr_fnmatch.c:164-190 | A character that is not special stands for itself, or under CASE_BLIND for the other case of its letter; so does a `[` that no `]` follows. |
| `GlobLaws.EscapeLaw` | apr-1.7.0/strings/apr_fnmatch.c:178-190 | A character behind a backslash stands for itself, whatever it is. |
| `GlobLaws.QuestionLaw` | apr-1.7.0/strings/apr_fnmatch.c:164-176 | A `?` stands for one character that is no slash in pathname mode and no leading period in period mode. |
| `GlobLaws.StarLaw` | apr-1.7.0/strings/apr_fnmatch.c:252-375 | A `*` stands for any run of characters, in pathname mode one without a slash; at the start of a segment it does not hide a leading period. |
| `GlobLaws.BracketLaw` | apr-1.7.0/strings/apr_fnmatch.c:84-162 | A bracket expression, with `!`, `^` or neither and a `]` in first place or not, stands for one character that some member allows, or that none allows; a member is a character or a range, escaped or not, with or without case. |
| `GlobLaws.RangeLaw` | apr-1.7.0/strings/apr_fnmatch.c:84-162 | `[lo-hi]` matches exactly the one-character strings from `lo` to `hi`, both included, and with a mark exactly the others. |
| `GlobLaws.ListLaw` | apr-1.7.0/strings/apr_fnmatch.c:84-162 | A list in brackets matches exactly its characters, and with a mark exactly the others. |
| `GlobLaws.PlainLaw` | apr-1.7.0/strings/apr_fnmatch.c:178-190 | A text without special characters matches exactly the strings that agree with it character by character, letters in either case under CASE_BLIND. |
| `GlobLaws.PeriodLaw` | apr-1.7.0/strings/apr_fnmatch.c:226-237 | What matches a leading period begins with a period or an escaped one. |
| `SkipLists.SkipList.InsertCompare` | apr-1.7.0/tables/apr_skiplist.c:439-578 | For every coin flip: null, and nothing changed, exactly when inserting meets an equal element; otherwise the element stands after all that are not greater, equal ones having been removed first when replacing; the invariant holds again and the stack is empty. |
| `SkipLists.SkipList.Walk` | apr-1.7.0/tables/apr_skiplist.c:466-506 | The walk ends at the slot of the new element with the nodes to its left on the stack, one for each row it will be in, even when removals shrink the top on the way. |
| `SkipLists.SkipList.InsertAt` | apr-1.7.0/tables/apr_skiplist.c:507-577 | Popping the stack and raising the top links one new column of the chosen height. |
| `SkipLists.SkipList.Insert` | apr-1.7.0/tables/apr_skiplist.c:580-592 | Inserts, or returns null when an equal element exists. |
| `SkipLists.SkipList.Add` | apr-1.7.0/tables/apr_skiplist.c:594-606 | Inserts after all equal elements. |
| `SkipLists.SkipList.Replace` | apr-1.7.0/tables/apr_skiplist.c:608-622 | Leaves exactly one element that compares equal, the new one, at the slot where it belongs. |
| `SkipLists.SkipList.FindCompare` | apr-1.7.0/tables/apr_skiplist.c:300-334 | The search over rows agrees with a scan of the bottom row: null exactly when nothing is equal, otherwise a bottom node holding an equal element, the last one when asked for. |
| `SkipLists.SkipList.Find` | apr-1.7.0/tables/apr_skiplist.c:336-392 | Some equal element, or the last one, or none. |
| `SkipLists.SkipList.RemoveNode` | apr-1.7.0/tables/apr_skiplist.c:643-686 | From any node of a column: exactly its element goes, rows left empty are given up, all nodes return to the queue, and the height returned is that of the highest column left, 1 if there is none. |
| `SkipLists.SkipList.Remove` | apr-1.7.0/tables/apr_skiplist.c:705-737 | Removes one equal element and returns the height of the highest column left, 1 if there is none; or reports 0 and changes nothing when nothing is equal. |
| `SkipLists.SkipList.RemoveAll` | apr-1.7.0/tables/apr_skiplist.c:739-764 | Ends with the empty list and every allocated node in the queue exactly once. |
| `SkipLists.SkipList.Pop` | apr-1.7.0/tables/apr_skiplist.c:766-776 | Returns and removes the first element. |
| `SkipLists.SkipList.Peek` | apr-1.7.0/tables/apr_skiplist.c:778-786 | Returns the first element and leaves the list alone. |
| `SkipLists.SkipList.NewNode` | apr-1.7.0/tables/apr_skiplist.c:189-201 | A queued node is used before a new one is allocated, and belongs to nothing else. |
| `SkipSort.AddedSortsStably` | apr-1.7.0/tables/apr_skiplist.c:439-606 | Adding elements one by one gives a sorted permutation in which equal elements keep their order. |
| `SkipSort.SortByPopping` | apr-1.7.0/tables/apr_skiplist.c:594-776 | Adding everything and popping until empty is a stable sort. |
| `HashTables.HashTable.Set` | apr-1.7.0/tables/apr_hash.c:374-400 | Stores, replaces or, for a null value, deletes; table invariant, map, count, chains and free list are as they should be, whether or not the array grows. |
| `HashTables.HashTable.Get` | apr-1.7.0/tables/apr_hash.c:362-372 | The value of the map, or null. |
| `HashTables.HashTable.Locate` | apr-1.7.0/tables/apr_hash.c:285-307 | The search ends at the entry with the key, or at the end of the key's bucket exactly when the key is absent. |
| `HashTables.HashTable.AddEntry` | apr-1.7.0/tables/apr_hash.c:309-322 | A recycled entry, or else a new one, is appended to the chain of the key's bucket. |
| `HashTables.HashTable.DeleteEntry` | apr-1.7.0/tables/apr_hash.c:380-387 | The entry leaves its chain and heads the free list. |
| `HashTables.HashTable.Expand` | apr-1.7.0/tables/apr_hash.c:193-208 | Relinking all entries in place into twice as many buckets keeps the map. |
| `HashTables.HashTable.CountIsSize` | apr-1.7.0/tables/apr_hash.c:402-405 | The count is the size of the map. |
| `HashTables.HashTable.Advance` | apr-1.7.0/tables/apr_hash.c:127-138 | One step of the iteration yields the next entry of the table; at the end all have been yielded. |
| `HashTables.HashTable.Clear` | apr-1.7.0/tables/apr_hash.c:407-412 | Deleting the current entry at each step terminates with the empty map, count 0 and every entry on the free list. |
| `HashTables.HashTable.Sweep` | apr-1.7.0/include/apr_hash.h:127-130 | A walk may delete the current entry wherever it likes: every entry that was there is visited once, and exactly the pairs not dropped are left. |
| `HashTables.HashTable.Do` | apr-1.7.0/tables/apr_hash.c:527-550 | The callback sees each entry once and all of them unless it stops; the result tells whether it did. |
| `HashMerge.Merge` | apr-1.7.0/tables/apr_hash.c:421-517 | The result is the overlay of the two maps, shared keys going through the merger, whatever seeds, hash functions and sizes the tables have; it is valid again, shares no entry, and needs no more than the sum of the counts. |
| `HashMerge.Overlay` | apr-1.7.0/tables/apr_hash.c:414-419 | Without a merger the overlay's values win. |
| `HashMerge.Copy` | apr-1.7.0/tables/apr_hash.c:324-360 | An equal table of the same shape that shares no entry. |
| `HashFunctions.HashDefault` | apr-1.7.0/tables/apr_hash.c:210-268 | The wrapping loop computes seed times 33 to the power of the length, plus the bytes weighted with descending powers of 33, modulo the word. |
| `HashFunctions.HashLaw` | apr-1.7.0/tables/apr_hash.c:210-268 | A further byte makes the hash 33 times what it was plus the byte, in 32 bits. |
| `HashFunctions.MaskIsRemainder` | apr-1.7.0/tables/apr_hash.c:299-300 | Masking with a power of two less one is taking the remainder, so every hash has a bucket. |
| `NatCompare.StrNatCmp` | apr-1.7.0/strings/apr_strnatcmp.c:88-135 | The character loop returns the comparison of the token lists, in both case modes. |
| `NatCompare.TotalPreorder` | apr-1.7.0/strings/apr_strnatcmp.c:88-149 | Swapping negates; equal exactly for the same tokens; transitive, strictly where either step is strict. |
| `NatCompare.CompareRight` | apr-1.7.0/strings/apr_strnatcmp.c:36-63 | The longest run of digits wins, then the greatest. |
| `NatCompare.CompareLeft` | apr-1.7.0/strings/apr_strnatcmp.c:66-85 | The first difference wins, then the longer run. |
| `NatNumbers.NumbersByValue` | apr-1.7.0/strings/apr_strnatcmp.c:36-63 | Runs without leading zeros compare as the numbers they denote. |
| `NatNumbers.FractionsByValue` | apr-1.7.0/strings/apr_strnatcmp.c:66-85 | Runs with leading zeros: one comes first exactly when its decimal fraction is smaller, or the fractions are equal and it is a proper prefix. |
| `NatLaws.CharacterLaw` | apr-1.7.0/strings/apr_strnatcmp.c:88-135 | Behind beginnings that agree, but for the case of letters when folding, the first different characters decide: -1 if the code of the first is smaller, else 1, of capitals when folding; the end of a string counts as 0. |
| `NatLaws.NumberLaw` | apr-1.7.0/strings/apr_strnatcmp.c:47-118 | Behind such beginnings two different runs of digits decide by their value, or as decimal fractions where one begins with a zero. |
| `NatLaws.BlankLaw` | apr-1.7.0/strings/apr_strnatcmp.c:98-104 | White space does not matter where it does not part two runs of digits. |
| `NatLaws.AlikeLaw` | apr-1.7.0/strings/apr_strnatcmp.c:120-135 | Strings that differ in the case of letters only tie when folding. |
| `Octets.Scan` | apr-1.7.0/encoding/apr_encode.c:471-479 | How many characters the first scan passes over, and exactly when the second one leaves nothing. |
| `Base64.Encode` | apr-1.7.0/encoding/apr_encode.c:277-329 | The loop and its tail write the encoding, a NUL behind it. |
| `Base64.Decode` | apr-1.7.0/encoding/apr_encode.c:452-518 | The octets the leading digits spell are written; the status is as the scan and the left-over group demand. |
| `Base64.RoundTrip` | apr-1.7.0/encoding/apr_encode.c:452-523 | Decoding undoes encoding for both alphabets, padded or not; relaxed decoding succeeds, strict decoding exactly when no padding was written or one follows the text. |
| `Base64.StrictlyAccepted` | apr-1.7.0/encoding/apr_encode.c:471-513 | Of any text with a NUL behind it strict decoding accepts exactly the digits, unless one is left over. |
| `Base64.GroupsOfBytes` | apr-1.7.0/encoding/apr_encode.c:484-511 | The other round trip holds exactly for canonical text: no lone group, no stray bits. |
| `Base64.BytesOfGroups` | apr-1.7.0/encoding/apr_encode.c:294-321 | The octets that the groups of a source spell are the source. |
| `Base64.QuadNumber` | apr-1.7.0/encoding/apr_encode.c:294-301 | A block of four groups is the 24-bit number of the three octets. |
| `Base64.RoomEnough` | apr-1.7.0/encoding/apr_encode.c:332-334 | The length queries are exact for padded text and never too small. |
| `Base64.UnpaddedIsPrefix` | apr-1.7.0/encoding/apr_encode.c:290-295 | Leaving out the padding only leaves out the padding exactly when no group is 62 or 63. |
| `Base64.UnpaddedNotPrefix` | apr-1.7.0/encoding/apr_encode.c:290-295 | An octet for which it does not. |
| `CodecLaws.Encoded64Law` | apr-1.7.0/encoding/apr_encode.c:198-329 | Character 4i + j is the letter of the alphabet, written out, for the six bits j of octets 3i to 3i + 2; the length and the equal signs at the end are given, for both alphabets and with or without padding. |
| `CodecLaws.Decoded64Law` | apr-1.7.0/encoding/apr_encode.c:34-518 | Octet 3i + j is the eight bits j of the four letters from 4i on, in either alphabet, up to the first character that is no letter. |
| `Base32.Encode` | apr-1.7.0/encoding/apr_encode.c:674-769 | The loop and its four tails write the encoding, a NUL behind it. |
| `Base32.Decode` | apr-1.7.0/encoding/apr_encode.c:919-1011 | The octets the leading digits spell are written; one, three or six left-over groups are refused. |
| `Base32.RoundTrip` | apr-1.7.0/encoding/apr_encode.c:674-1018 | As for base64, for base32 and base32hex. |
| `Base32.StrictlyAccepted` | apr-1.7.0/encoding/apr_encode.c:947-1006 | Of any text with a NUL behind it strict decoding accepts exactly the digits, unless one, three or six are left over. |
| `Base32.GroupsOfBytes` | apr-1.7.0/encoding/apr_encode.c:960-1004 | The other round trip holds exactly for canonical text. |
| `Base32.SameNumber` | apr-1.7.0/encoding/apr_encode.c:694-709 | A block of eight groups is the 40-bit number of the five octets. |
| `Base32.RoomEnough` | apr-1.7.0/encoding/apr_encode.c:771-773 | The length queries are exact for padded text and never too small. |
| `CodecLaws.Encoded32Law` | apr-1.7.0/encoding/apr_encode.c:674-769 | Character 8i + j is the letter for the five bits j of octets 5i to 5i + 4, for both alphabets and with or without padding. |
| `CodecLaws.Decoded32Law` | apr-1.7.0/encoding/apr_encode.c:919-1011 | Octet 5i + j is the eight bits j of the eight letters from 8i on, up to the first character that is no letter. |
| `Base16.Encode` | apr-1.7.0/encoding/apr_encode.c:1114-1149 | Two digits an octet, with or without colons, in either case. |
| `Base16.Decode` | apr-1.7.0/encoding/apr_encode.c:1293-1349 | The pairing loop writes what the text is paired into and refuses a lone character. |
| `Base16.Measure` | apr-1.7.0/encoding/apr_encode.c:1293-1378 | The length query reports exactly the octets and the status of the writing call. |
| `Base16.RoundTrip` | apr-1.7.0/encoding/apr_encode.c:1114-1378 | Decoding undoes encoding with and without colons, in either case, strict or relaxed. |
| `Base16.StrictlyAccepted` | apr-1.7.0/encoding/apr_encode.c:1314-1349 | Of any text with a NUL behind it strict decoding accepts exactly the digits and colons that leave no character over. |
| `Base16.OnlyPairsAreRead` | apr-1.7.0/encoding/apr_encode.c:1327-1338 | Text of digits and colons is accepted and read as the digits it holds exactly when it consists of pairs behind any number of colons. |
| `Base16.SplitPairAccepted` | apr-1.7.0/encoding/apr_encode.c:1327-1338 | A colon inside a pair goes unnoticed. |
| `Base16.RoomExact` | apr-1.7.0/encoding/apr_encode.c:1152-1159 | The length query is exact. |
| `CodecLaws.Encoded16Law` | apr-1.7.0/encoding/apr_encode.c:1114-1149 | Each octet is written as the letters for its halves in the case asked for, with colons between octets if asked for. |
| `CodecLaws.Pair16Law` | apr-1.7.0/encoding/apr_encode.c:1314-1349 | Two letters in either case in front of a text are read as their octet, and the rest as it would be alone. |
| `CodecLaws.Colon16Law` | apr-1.7.0/encoding/apr_encode.c:1327-1331 | A colon in front of a text is passed over. |
| `CodecLaws.Stop16Law` | apr-1.7.0/encoding/apr_encode.c:1314-1319 | Nothing is read from the first character on that is no letter and no colon. |
| `UrlEscape.RoundTrip` | apr-1.7.0/encoding/apr_escape.c:139-506 | Unescaping undoes both escapers on every NUL-free string and succeeds exactly when something had been escaped. |
| `UrlEscape.Escape` | apr-1.7.0/encoding/apr_escape.c:301-348 | The buffer receives the escaped text; success is reported exactly when it differs from the source. |
| `UrlEscape.MeasureEscape` | apr-1.7.0/encoding/apr_escape.c:452-506 | The measuring pass reports the size and status of the writing pass. |
| `UrlEscape.Unescape` | apr-1.7.0/encoding/apr_escape.c:139-250 | Forbidden, reserved and broken escapes are treated and reported in the order of the code. |
| `UrlEscape.MeasureUnescape` | apr-1.7.0/encoding/apr_escape.c:198-250 | The measuring pass reports the size and status of the writing pass. |
| `EscapeLaws.UrlencodedLaw` | apr-1.7.0/encoding/apr_escape.c:452-481 | Exactly letters, digits, `*`, `-`, `.` and `_` stay, a blank becomes `+`, every other character is a percent sign and two lower-case hexadecimal digits. |
| `EscapeLaws.PathSegmentLaw` | apr-1.7.0/encoding/apr_escape.c:301-330 | Exactly the pchar characters of section 3.3 of RFC 3986 stay, without the semicolon; every other character is a percent sign and two digits. |
| `EscapeLaws.UrlLaw` | apr-1.7.0/encoding/apr_escape.c:301-506 | Texts are escaped character by character. |
| `EscapeLaws.ReadNothingLaw` | apr-1.7.0/encoding/apr_escape.c:139-196 | The empty text is read as itself, with nothing to report. |
| `EscapeLaws.ReadPlainLaw` | apr-1.7.0/encoding/apr_escape.c:139-196 | Any character but `%` is kept, or `+` read as a blank if that is asked for. |
| `EscapeLaws.ReadEscapeLaw` | apr-1.7.0/encoding/apr_escape.c:139-196 | A percent sign and two hexadecimal digits in either case are read as the octet; NUL and forbidden octets are reported, reserved ones are left as they are written. |
| `EscapeLaws.ReadBrokenLaw` | apr-1.7.0/encoding/apr_escape.c:139-196 | A percent sign without two digits behind it stays and makes the text invalid, whatever else is met. |
| `EntityEscape.RoundTrip` | apr-1.7.0/encoding/apr_escape.c:526-812 | Unescaping undoes escaping exactly when the text is ASCII or is not reduced to ASCII, and succeeds then exactly when something had been escaped. |
| `EntityEscape.HighsLost` | apr-1.7.0/encoding/apr_escape.c:526-812 | What comes back of text reduced to ASCII has fewer characters that are not ASCII, or is shorter. |
| `EntityEscape.NumericIsCut` | apr-1.7.0/encoding/apr_escape.c:573-578 | The numeric entity takes six characters, of which printing into six leaves the first five. |
| `EntityEscape.EscapedChars` | apr-1.7.0/include/apr_escape_test_char.h:11-25 | The table escapes four characters; the apostrophe the code has a case for is not among them. |
| `EntityEscape.Escape` | apr-1.7.0/encoding/apr_escape.c:526-587 | The buffer receives the escaped text; success is reported exactly when it differs from the source. |
| `EntityEscape.MeasureEscape` | apr-1.7.0/encoding/apr_escape.c:588-637 | The measuring pass reports the size and status of the writing pass. |
| `EntityEscape.Unescape` | apr-1.7.0/encoding/apr_escape.c:661-748 | Named and numeric entities are replaced, unknown ones kept, unprintable ones dropped. |
| `EntityEscape.MeasureUnescape` | apr-1.7.0/encoding/apr_escape.c:749-812 | The measuring pass reports the size and status of the writing pass. |
| `EscapeLaws.EntityLaw` | apr-1.7.0/encoding/apr_escape.c:526-587 | What is written for each character, the four entities spelled out, and the unclosed numbers of reduction to ASCII by their digits. |
| `EscapeLaws.EntityTextLaw` | apr-1.7.0/encoding/apr_escape.c:526-587 | Texts are escaped character by character. |
| `EscapeLaws.EntityPlainLaw` | apr-1.7.0/encoding/apr_escape.c:661-720 | A character that is no `&`, or that no semicolon follows, is kept. |
| `EscapeLaws.EntityNumberLaw` | apr-1.7.0/encoding/apr_escape.c:690-722 | `&#`, digits and a semicolon are read as the character with that code if it can be shown, and as nothing else. |
| `EntityNames.NameLaw` | apr-1.7.0/encoding/apr_escape.c:661-748 | A name between `&` and a semicolon is read as its character, the four of markup or the letters of ISO 8859-1 in code order; `&` before any other name is kept. |
| `EntityNames.LookedUp` | apr-1.7.0/encoding/apr_escape.c:661-735 | The search through the names of one length finds the only character of that name, or there is none. |
| `EchoEscape.Escape` | apr-1.7.0/encoding/apr_escape.c:832-914 | The buffer receives the escaped text; success is reported exactly when it differs from the source. |
| `EchoEscape.MeasureEscape` | apr-1.7.0/encoding/apr_escape.c:915-960 | The measuring pass reports the size and status of the writing pass. |
| `EchoEscape.RoundTrip` | apr-1.7.0/encoding/apr_escape.c:832-960 | What was escaped can be read back, so no two texts look alike. |
| `EscapeLaws.EchoLaw` | apr-1.7.0/encoding/apr_escape.c:832-914 | Printable ASCII stays but for the backslash and a quote to be escaped, seven control characters have their letters, every other character is `\x` and two digits. |
| `EscapeLaws.EchoTextLaw` | apr-1.7.0/encoding/apr_escape.c:832-914 | Texts are escaped character by character. |
| `Numbers.Conv10Quad` | apr-1.7.0/strings/apr_snprintf.c:377-422 | The digits of the magnitude end up at the end of the buffer, the smallest number included, by either path. |
| `Numbers.Conv10` | apr-1.7.0/strings/apr_snprintf.c:329-375 | The same for 32 bits. |
| `Numbers.ConvP2` | apr-1.7.0/strings/apr_snprintf.c:615-655 | Octal and hexadecimal digits of a number. |
| `Numbers.Strtoi64` | apr-1.7.0/strings/apr_strings.c:250-352 | White space, sign, prefix and base are taken as the code takes them. The result is the number modulo 2 to the power of 64, or the extreme value and an error exactly when some digit turned the wrapped number around; the end is reported. |
| `Numbers.AlwaysRightly` | apr-1.7.0/strings/apr_strings.c:300-345 | All numerals of a base are read as their numbers, or reported as out of range because they do not fit, if and only if the base is 2, or 3 without a minus sign. |
| `Numbers.ReadRightly` | apr-1.7.0/strings/apr_strings.c:300-345 | In every base, all numerals below a bound above 2 to the power of 64 are read rightly. |
| `Numbers.FirstMissed` | apr-1.7.0/strings/apr_strings.c:300-345 | The numeral at that bound is not, wherever the number before its last digit is in the range. |
| `Numbers.OverflowMissed` | apr-1.7.0/strings/apr_strings.c:300-345 | A number that does not fit and is read as another one without an error. |
| `Numbers.PrintedIsRead` | apr-1.7.0/strings/apr_strings.c:250-352 | Reading a printed 64-bit number in base 10 gives it back. |
| `Numbers.PrintedInBaseIsRead` | apr-1.7.0/strings/apr_strings.c:250-352 | The same for octal and hexadecimal. |
| `NumberLaws.ReadingLaw` | apr-1.7.0/strings/apr_strings.c:250-330 | White space, sign, `0x` or `0X` for base 16 and 0, and for base 0 octal behind a zero and decimal otherwise; then the letters in either case stand for their digits, up to the first character that is no digit of the base. |
| `NumberLaws.DigitLaw` | apr-1.7.0/strings/apr_strings.c:309-320 | A character has the value of its place among the digits and letters, in either case, and no other character has one. |
| `FileSize.Strfsize` | apr-1.7.0/strings/apr_strings.c:432-466 | Four characters. The unit is the first that leaves fewer than 973 of it, values below 9 + 973/1024 are shown in tenths, both rounded to the nearest, halves up; so the value lies within 1/20 + 1/1024 of a unit, or half a unit, of the truth. |
| `FileSize.Printed` | apr-1.7.0/strings/apr_strings.c:440-463 | The four characters are what the formatter makes of the three formats and their arguments. |
| `FileSize.TextLaw` | apr-1.7.0/strings/apr_strings.c:432-466 | The four characters digit by digit; K stands for 1024 bytes and each of MGTPE for 1024 times as much. |
| `Formatter.VSnprintf` | apr-1.7.0/strings/apr_snprintf.c:1387-1407 | With a buffer: the first min(len - 1, total) characters of the unlimited text and a NUL, their number returned; without one: the total, and nothing is written. |
| `Formatter.VFormatter` | apr-1.7.0/strings/apr_snprintf.c:682-1343 | Everything sent is the beginning of the unlimited text; the formatter gives up exactly when the text is longer than the buffer. |
| `Formatter.InsChar` | apr-1.7.0/strings/apr_snprintf.c:244-257 | One character is stored or only counted; a full buffer ends the work. |
| `Formatter.SendPadded` | apr-1.7.0/strings/apr_snprintf.c:1310-1336 | Sign, padding on either side and text come out as one padded piece. |
| `Formatter.ReadSpec` | apr-1.7.0/strings/apr_snprintf.c:737-858 | Flags, width, precision and size of a directive are read as its grammar says, the shortcut for lower-case letters included. |
| `Formats.FlagsAreTheRun` | apr-1.7.0/strings/apr_snprintf.c:749-766 | The flags end at the first character that is none, and each is set exactly when its character occurs among them. |
| `Formats.NumbersAreTheRun` | apr-1.7.0/strings/apr_snprintf.c:261-267 | A width or precision is the decimal value of the longest run of digits. |
| `Formatter.ConvertArg` | apr-1.7.0/strings/apr_snprintf.c:859-1089 | Each conversion yields its text, whatever the size of its argument. |
| `Formatter.NumeralFits` | apr-1.7.0/strings/apr_snprintf.c:65-69 | The number buffer holds any 64-bit number in any base. |
| `Formats.PaddedWidth` | apr-1.7.0/strings/apr_snprintf.c:1314-1336 | A directive is exactly as wide as asked for, or as its text. |
| `Formats.DoubledPrints` | apr-1.7.0/strings/apr_snprintf.c:1084-1089 | A text with its percent signs doubled prints as itself. |
| `Formats.QuadPrints` | apr-1.7.0/strings/apr_snprintf.c:893-911 | A 64-bit number printed with its own format is its sign and digits, which `Numbers.PrintedIsRead` reads back. |
| `Formats.ZerosOnTheRight` | apr-1.7.0/strings/apr_snprintf.c:752-765 | "%-05d" prints 12 as 12000. |
| `Formats.LeftFill` | apr-1.7.0/strings/apr_snprintf.c:1314-1336 | A left-adjusted text is filled up with blanks exactly when its padding is a blank or there is nothing to fill up. |
| `Formats.PrefixMissing` | apr-1.7.0/strings/apr_snprintf.c:943-966 | "%x%#qx" prints 0 and 5 as 05. |
| `Formats.PrefixOfNumber` | apr-1.7.0/strings/apr_snprintf.c:943-966 | With `#`, a hexadecimal number has its prefix, and zero none, exactly when it is not quad-sized or the last smaller one is zero just when it is. |
| `Formats.OutputPieces` | apr-1.7.0/strings/apr_snprintf.c:913-966 | The output is that of the pieces of the format one by one, the number remembered for `#` being that of the last smaller-sized `o`, `x` or `X` before. |
| `FormatLaws.SignedLaw` | apr-1.7.0/strings/apr_snprintf.c:737-1336 | `%d` and `%i` with any flags, width, precision and size print sign, decimal digits and padding of the argument as a signed number of its size; `+` and a blank ask for a sign, a precision for zeros in front. |
| `FormatLaws.UnsignedLaw` | apr-1.7.0/strings/apr_snprintf.c:737-1336 | `%u` prints the decimal digits of the argument as an unsigned number of its size. |
| `FormatLaws.OctalLaw` | apr-1.7.0/strings/apr_snprintf.c:737-1336 | `%o` prints octal digits, with `#` behind a zero unless there is one. |
| `FormatLaws.HexLaw` | apr-1.7.0/strings/apr_snprintf.c:737-1336 | `%x` prints small letters, `%X` capitals; `#` adds `0x` or `0X` to numbers that are not zero and not quad-sized. |
| `FormatLaws.StringLaw` | apr-1.7.0/strings/apr_snprintf.c:737-1336 | `%s` prints the string or as many of its first characters as the precision allows, "(null)" for a null pointer, padded with blanks only. |
| `FormatLaws.CharacterLaw` | apr-1.7.0/strings/apr_snprintf.c:737-1336 | `%c` prints its character, `%%` a percent sign, an unknown letter itself behind a percent sign. |
| `FormatLaws.SequenceLaw` | apr-1.7.0/strings/apr_snprintf.c:724-1336 | A directive other than octal and hexadecimal and whatever follows it print independently, each from its own arguments. |
| `FormatLaws.TextLaw` | apr-1.7.0/strings/apr_snprintf.c:724-729 | Any other character prints as itself. |
| `Tokenizer.TokenizeToArgv` | apr-1.7.0/strings/apr_cpystrn.c:97-185 | One slot for each argument, each holding it without its escapes, and a closing null. |
| `Tokenizer.CountArguments` | apr-1.7.0/strings/apr_cpystrn.c:159-168 | The counting pass counts the arguments that the filling pass cuts out. |
| `Tokenizer.NextArgument` | apr-1.7.0/strings/apr_cpystrn.c:171-182 | One round cuts out the first argument; the cursor passes the closing NUL only behind the last one. |
| `Tokenizer.RemoveEscapes` | apr-1.7.0/strings/apr_cpystrn.c:131-145 | Compacting in place leaves the argument without its escapes. |
| `Tokenizer.CopyBounded` | apr-1.7.0/strings/apr_cpystrn.c:46-68 | At most one character less than the size is copied, and a NUL closes the copy. |
| `Tokenizer.QuotingRoundTrip` | apr-1.7.0/strings/apr_cpystrn.c:97-185 | Quoted arguments come back exactly when none of them ends in a backslash. |
| `Tokenizer.ArgumentLists` | apr-1.7.0/strings/apr_cpystrn.c:97-185 | Some command line yields a given list of arguments if and only if none of them but the last ends in a backslash. |
| `Tokenizer.LastEndsInBackslash` | apr-1.7.0/strings/apr_cpystrn.c:97-185 | A command line whose last argument does. |
| `Tokenizer.BackslashLost` | apr-1.7.0/strings/apr_cpystrn.c:113-129 | A single quoted backslash does not come back. |
| `TokenizerLaws.BlankLaw` | apr-1.7.0/strings/apr_cpystrn.c:97-100 | Blanks and tabs in front of an argument are nothing. |
| `TokenizerLaws.QuotedLaw` | apr-1.7.0/strings/apr_cpystrn.c:97-185 | What stands between two double or two single quotes is one argument, backslashes taken out; the next one may begin right behind the closing quote. |
| `TokenizerLaws.UnclosedLaw` | apr-1.7.0/strings/apr_cpystrn.c:113-129 | An argument whose quote is never closed reaches to the end. |
| `TokenizerLaws.WordLaw` | apr-1.7.0/strings/apr_cpystrn.c:97-185 | A bare word ends at a blank or tab that is not behind a backslash; quotes inside it are characters like others. |
| `TokenizerLaws.LastWordLaw` | apr-1.7.0/strings/apr_cpystrn.c:97-185 | A bare word at the end of the command line. |

## Left out

- Numbers.Strtoi64: the branch that hands over to the C library; and signed overflow, which C leaves undefined, is taken to wrap around.
- GlobLiteral.FnmatchTest: judged for exact case; its verdict on patterns it takes for globs is not judged, since the code errs on that side by design.
- Numbers.ConvP2: the octal and hexadecimal widths in use, the two widths of word sharing one body.
- Formatter.VSnprintf: floating point, `%n` and the `%p` extensions; formats with such directives are outside its precondition. A missing argument or one of the wrong kind, undefined in C, reads as 0 or a null string; widths and precisions beyond a machine word; a precision and prefix that together exceed the number buffer. Flush functions other than the one of `apr_vsnprintf`.
- Formatter.VFormatter: as for `Formatter.VSnprintf`.
- Formatter.ConvertArg: as for `Formatter.VSnprintf`.
- Formatter.ReadSpec: the format for 64-bit numbers is a parameter, as configuration chooses it, and the one for file offsets is the same.
- Skip list secondary indexes, ordered by function address, and `apr_skiplist_merge`, whose meaning the header leaves open; `topend` and `bottomend`, which only ever are head nodes; the callbacks that free elements.
- Which of several equal elements `find` and `remove` pick: the search stops at the first one met on the highest row, and callers are promised no more.
- The array growth inside the node stack and node queue of the skip list, which are sequences here; pools and failing allocations.
- The 32-bit wrap-around of `count` and of `max * 2 + 1` in the hash table.
- `APR_HASH_KEY_STRING`: keys carry their length. The iterator embedded in the table and the one from a pool are one here. The data and pool arguments of the merger and of the callback of `apr_hash_do`.
- A comparison function that is no total preorder: the skip list promises nothing for one.
- Locales other than POSIX, multi-byte characters and EBCDIC tables.
- `apr_match_glob`, which reads a directory.
- The text encoders, which only add character-set macros; null sources; explicit positive lengths in the escaping routines, where the two passes count differently; `apr_escape_path`, `apr_escape_shell`, the LDAP and hexadecimal escapers.
- Sockets, files, processes, locks and shared memory, and ActiveMQ-CPP: only headers, wrappers or a test runner are there.
