# The support libraries of ZMailer, verified

ZMailer's `lib` and `libc` directories and its bundled gettext runtime (`intl`) hold data structures and
algorithms that the rest of the mailer trusts. This project models eleven of them in Dafny and proves what
they are for.

| modules | source | what it is |
|---|---|---|
| `SplayShape`, `SplayInsert`, `SplayRemove`, `SplayForm`, `SplitForm`, `DeqForm`, `SplayTree`, `SplayRuns` | `zmailer/lib/splay.c` | splay tree with parent links and a free chain |
| `Symbol` | `zmailer/lib/symbol.c` | string interner: a splay tree of collision chains |
| `Allocate` | `zmailer/lib/allocate.c` | region and stack allocator |
| `PluralGrammar`, `PluralTables`, `PluralMachine`, `PluralLexer`, `PluralParser`, `PluralText` | `zmailer/intl/plural.c`, `zmailer/intl/eval-plural.h` | LALR parser and evaluator for plural expressions |
| `InetText`, `InetForm`, `InetPton`, `InetNtop` | `zmailer/libc/inet_pton.c`, `zmailer/libc/inet_ntop.c` | text form of IPv4 and IPv6 addresses (section 2.2 of RFC 1884) |
| `Md5`, `Md5Format` | `zmailer/libc/md5c.c` | streaming MD5 (sections 3.1 to 3.5 of RFC 1321) |
| `Catalog` | `zmailer/intl/dcigettext.c`, `zmailer/intl/loadmsgcat.c` | index of a message catalog |
| `L10nList`, `L10nNames`, `BitCount`, `BitVectors` | `zmailer/intl/l10nflist.c` | sorted pool of locale files |
| `Rfc822Scan`, `Rfc822Tokens`, `Rfc822Fold` | `zmailer/lib/rfc822scan.c`, `zmailer/lib/token.c` | scanner for header fields (section 3.3 of RFC 822) and token printer |
| `LineBuffer` | `zmailer/lib/linebuffer.c` | refilled line buffer |
| `StrMatch`, `Patterns` | `zmailer/lib/strmatch.c` | backtracking glob matcher |

`Numerals`, `Splitting`, `Strcmp`, `Sequences`, `Division` and `Bytes` are shared helpers. `dafny verify dfyconfig.toml` checks everything.

## How it is modelled

- **Splay tree.** Nodes are heap objects with the three links of the source. A ghost sequence `order` lists the
  nodes of the tree in order, and a ghost sequence of cells `g` writes their links as numbers, each with the span
  of places its subtree covers. `SplayShape`, `SplayInsert` and `SplayRemove` reason about cells alone, also about
  the states in the middle of a loop where links above are stale; `SplayTree` ties every assignment of the source
  to them. Mirrored branches of the source are proved once and reflected. `SplayForm`, `SplitForm` and `DeqForm`
  define splaying, splitting and taking out the first node on trees as values, and show that the code gives the
  same shapes, rotation by rotation.
- **Allocator.** One memory type; addresses are numbers, and the address of a new block is a parameter, required
  only to be aligned and apart from the other malloc'ed blocks. Ghost sequences record what was handed out (`live`)
  and the levels that were taken (`marks`, and `refused` for levels taken while there are full blocks).
- **Plural expressions.** The parser tables are written out row by row. `TablesMeanPlan` says what they decide;
  `PluralMachine` runs the automaton on derivation trees; `YyParse` is the loop with its two stacks.
- **Buffers.** `tmp`, `dst`, the MD5 buffer, the line buffer, the hash table and `rfc_ctype` are arrays that the
  methods update in place. A C string is the sequence of its characters before the NUL.
- **Texts and tables.** What a method computes is said twice where a definition alone would not fix it: once as
  the function that follows the code, and once on the characters, bytes or bits themselves, written out
  (`PluralText`, `Rfc822Tokens`, `InetForm`, `L10nNames`, `Md5Format`, `Patterns`).
- `MD5Transform` and the hash functions are parameters.

## What the code does differently from its comments

- `zmailer/lib/splay.c:481` says that a new node goes after all equal keys. The comparison is strict: `Enq` takes
  any key and puts the node before all equal ones. `sp_install` never enqueues a key that is present.
- `zmailer/libc/inet_pton.c:148` says that `::` in a full address is silently ignored. The shift then copies each
  byte onto itself and clears it, so everything after the `::` becomes zero: `InetText.FullWithDoubleColon`.
- `zmailer/lib/linebuffer.c` promises lines of potentially infinite length. The buffer is always filled up to one
  byte less than its size, so the branch that grows it is never reached, and a longer line comes in pieces:
  `LineBuffer.WholeLine`, with `LineBuffer.LineTooLong` as an instance.
- `zmailer/lib/allocate.c:183` compares a request with the raw block size. The new block is too small for requests
  less than 48 bytes below it, and exactly then what is handed out leaves its block: `Allocate.Region.Alloc`,
  `Allocate.GrowthStopsShort`, and the first such request in `Allocate.FirstOverrun` and `Allocate.OverrunRun`.
- `getlevel` hands out a level also when there are full blocks, which `setlevel` then refuses:
  `Allocate.Region.ReturnTo`, `Allocate.RefusedRun`.
- `inet_ntop4` compares the length without the NUL with `size`, so a text of exactly `size` characters is stored
  together with a NUL behind it; it stays inside exactly for all other lengths: `InetNtop.Ntop4Inside`, and
  `InetNtop.NulBehind` for 1.1.1.1.
- `scan822` with the same temporary special given twice leaves it special: `Rfc822Scan.Scan822`,
  `Rfc822Scan.SpecialStays`.
- `_hdr_compound` does not count a backslash at the end of a line in the length that it gives to `_unfold`. After
  more than two such lines the joined text is cut and scanning goes on at a wrong place: `Rfc822Fold.Continued`
  has the exact condition, `Rfc822Fold.CutToken` the smallest case.
- A range in a glob bracket takes only 7-bit characters after its first, and one that starts with character 255
  takes all of them: `StrMatch.RangeExact`, `StrMatch.HighRanges`.

## Model

| member | source | states |
|---|---|---|
| `SplayTree.Sptree.Splay` | zmailer/lib/splay.c:698-790 | for any node of any well-formed tree the loop ends, the node is the root, the in-order sequence of nodes is the same, every uplink is the inverse of a child link, and the shape is that of the bottom-up splay with its same-side rotations |
| `SplayShape.SplayStart` | zmailer/lib/splay.c:711-714 | before the loop, the two subtrees of the node and the tree above it satisfy the invariant of the bottom-up splay |
| `SplayShape.Zig` | zmailer/lib/splay.c:745-748 | hanging the node above under the growing right tree keeps the invariant, with the cut one level higher and wider |
| `SplayShape.Rotate` | zmailer/lib/splay.c:728-744 | rotating two nodes on the same side, with the links above still stale, keeps the invariant |
| `SplayShape.SplayEnd` | zmailer/lib/splay.c:782-790 | at the top, joining the two trees under the node gives a tree on all places |
| `SplayForm.DoubleZig` | zmailer/lib/splay.c:728-748 | two nodes above on the same side: rotating and then hanging does what splaying on trees does with two frames at once |
| `SplayForm.SingleZig` | zmailer/lib/splay.c:745-748 | otherwise one node is hung, as on trees |
| `SplayForm.StartForm` | zmailer/lib/splay.c:711-714 | the way up from a node along the uplinks is the way of the search for it from the root |
| `SplayTree.Sptree.Enq` | zmailer/lib/splay.c:490-609 | for any key both loops end, the new node is the root, and it stands in the order after exactly the smaller keys, so before all equal ones, with all links consistent; its subtrees have the shapes of the top-down split with its turns |
| `SplayInsert.TurnMove` | zmailer/lib/splay.c:545-552 | one round of the first loop, four link writes, keeps the invariant of the two partial trees |
| `SplayInsert.SplitEnd` | zmailer/lib/splay.c:600-609 | exchanging the children, built in reverse, and placing the new node at its rank gives a tree |
| `SplitForm.TurnMoveForm` | zmailer/lib/splay.c:545-552 | a round that turns and moves does what the split on trees does with two nodes at once |
| `SplitForm.EndForm` | zmailer/lib/splay.c:600-609 | the finished tree has the two split trees under the new node |
| `SplayTree.Sptree.Deq` | zmailer/lib/splay.c:621-680 | takes the first node out of the right subtree and leaves a tree on the remaining places there, without touching anything before the root; the subtree has the shape that the rotations down the left branch give |
| `DeqForm.RollForm` | zmailer/lib/splay.c:660-672 | a round of the descent rotates every second node above the one before it, as on trees |
| `SplayTree.Sptree.Delete` | zmailer/lib/splay.c:378-407 | exactly that node leaves the order and joins the free chain, the map loses exactly its key, and its successor, if any, becomes the root |
| `SplayTree.Sptree.Unlink` | zmailer/lib/splay.c:378-400 | the tree afterwards has the shape of the splayed tree without its root, under the first node of the right subtree if there is one |
| `SplayTree.Sptree.Install` | zmailer/lib/splay.c:126-145 | the map gains or updates exactly that key, and no other entry changes |
| `SplayTree.Sptree.Lookup` | zmailer/lib/splay.c:93-116 | finds the node exactly if the key is present, and changes nothing but the shape, which is the splayed one, or nothing at all |
| `SplayTree.Sptree.Alloc` | zmailer/lib/splay.c:49-84 | takes a node from the free chain, refilling it when empty, so that every node stays in exactly one of tree and chain |
| `SplayTree.Sptree.Null` | zmailer/lib/splay.c:194-232 | the recursive chop moves every node of the tree to the free chain exactly once |
| `SplayTree.Sptree.FNext` | zmailer/lib/splay.c:242-276 | following a right link down or uplinks up gives the next node of the order |
| `SplayTree.Sptree.Scan` | zmailer/lib/splay.c:156-192 | visits each node from the start on exactly once in ascending order even if the callback deletes the nodes it is given, and exactly the others remain |
| `SplayTree.Sptree.InOrderIsOrder` | zmailer/lib/splay.c:242-276 | the in-order walk along the child links is the ghost order |
| `SplayRuns.Run` | zmailer/lib/splay.c:49-145 | every run of install, lookup, delete and null (lines 49-145, 194-232, 378-407 and 621-680) gives the answers and contents of a finite map, the element count is its size, and no node is lost |
| `Symbol.SymbolTable.Intern` | zmailer/lib/symbol.c:109-158 | returns the one live entry with that name, making it only if there was none, under any hash collisions |
| `Symbol.SymbolTable.Lookup` | zmailer/lib/symbol.c:56-96 | returns the entry with that name exactly if there is one |
| `Symbol.SymbolTable.Free` | zmailer/lib/symbol.c:207-254 | exactly the entry with that name stops being live, and no bucket without entries stays in the tree |
| `Symbol.SymbolTable.Clear` | zmailer/lib/symbol.c:172-200 | the scan frees each live entry exactly once and frees nothing else, and no symbol is left |
| `Symbol.SymbolTable.SameIdIffSameName` | zmailer/lib/symbol.c:109-158 | two live symbols are the same entry exactly if their names have the same bytes |
| `Allocate.Region.Alloc` | zmailer/lib/allocate.c:104-138 | the bytes handed out lie inside their malloc'ed block, and all invariants hold afterwards, if and only if a new block would have room for the request; then they overlap nothing handed out before, are aligned if asked, and every earlier level stays good |
| `Allocate.Region.MoreMem` | zmailer/lib/allocate.c:153-244 | each block stays on exactly one of the active and full lists, blockinuse is the tail in heap mode, in stack mode all blocks after it stay empty, and blockinuse then takes the request if and only if a new block would |
| `Allocate.Region.TFree` | zmailer/lib/allocate.c:321-358 | all blocks are active and empty again, none is lost, and nothing is live |
| `Allocate.Region.GetLevel` | zmailer/lib/allocate.c:365-373 | the level is the current allocation point; it is good or refused according to whether there are full blocks, and nothing else changes |
| `Allocate.Region.SetLevel` | zmailer/lib/allocate.c:380-429 | succeeds exactly for a good level of a stack without full blocks, then releases exactly what was handed out after it; otherwise changes nothing |
| `Allocate.Region.ReturnTo` | zmailer/lib/allocate.c:365-429 | for any level ever taken and any allocations since: exactly what came after it is released if and only if there were no full blocks when it was taken, or nothing came after it |
| `Allocate.RefusedRun` | zmailer/lib/allocate.c:224-243 | for every first request from 32621 to 32712 bytes and a second that needs a new block, the level taken then can be gone back to if and only if the first block has 40 bytes left |
| `Allocate.FreshBlockExact` | zmailer/lib/allocate.c:183-188 | a request served from a new block stays inside its malloc'ed bytes exactly up to the block size and the alignment slop |
| `Allocate.GrownIs` | zmailer/lib/allocate.c:183-184 | the block size is the first doubling of the start size that is not below the request |
| `Allocate.GrowthStopsShort` | zmailer/lib/allocate.c:183-184 | the growth loop ends with a block that is too small exactly if its raw size exceeds the request by less than 48 |
| `Allocate.FirstOverrun` | zmailer/lib/allocate.c:183-188 | of all requests up to 32721 bytes from a first block, exactly 32721 overruns it |
| `Allocate.OverrunRun` | zmailer/lib/allocate.c:104-138 | with a new region that request is handed out past the end of its block |
| `Allocate.Region.Oversized` | zmailer/lib/allocate.c:172-184 | if the new block would be too small, no existing block has room either |
| `PluralTables.TablesMeanPlan` | zmailer/intl/plural.c:248-298 | in every state and for every lookahead the tables decide to shift exactly the operators that bind tighter than the one before, and to reduce otherwise |
| `PluralMachine.Sound` | zmailer/intl/plural.c:615-972 | from any reachable configuration, acceptance means that the stack and the remaining input are the sentence of the returned derivation, and it respects the precedences |
| `PluralMachine.Complete` | zmailer/intl/plural.c:615-972 | every sentence is accepted with its derivation, at a stack depth computed from the derivation |
| `PluralMachine.AcceptsExactly` | zmailer/intl/plural.c:615-972 | a token sequence is accepted with derivation c if and only if c is its derivation under the declared precedences and associativities |
| `PluralMachine.Unambiguous` | zmailer/intl/plural.c:248-298 | no sentence has two derivations that respect the precedences |
| `PluralParser.YyParse` | zmailer/intl/plural.c:596-1110 | for every text the loop ends with all table and stack indices in range; it returns 0 with the tree of the derivation exactly for sentences that fit the stack, 2 when the depth reaches 10000, and 1 otherwise |
| `PluralParser.YyErrHandle` | zmailer/intl/plural.c:1050-1100 | error recovery always pops everything, because no state shifts the error token |
| `PluralLexer.YyLex` | zmailer/intl/plural.c:1172-1314 | delivers the token at the cursor, with longest numbers modulo 2^64, and never moves past the end |
| `PluralText.BlankSkipped` | zmailer/intl/plural.c:1180-1192 | spaces and tabs are skipped |
| `PluralText.TextEnds` | zmailer/intl/plural.c:1295-1301 | a semicolon, a newline or the end ends the tokens |
| `PluralText.SingleToken` | zmailer/intl/plural.c:1262-1309 | each other character stands for its token, and every character that is not in the switch is an error |
| `PluralText.DoubleToken` | zmailer/intl/plural.c:1212-1260 | comparisons and logical operators, with their second character or without |
| `PluralText.DigitsToken` | zmailer/intl/plural.c:1197-1210 | a run of digits is its decimal number modulo 2^64 |
| `PluralText.ReadsSpelled` | zmailer/intl/plural.c:1172-1314 | any tokens, written with any blanks between them and without where they can be told apart, are read back |
| `PluralLexer.ReadsShow` | zmailer/intl/plural.c:1172-1314 | the fully parenthesised text of any expression is read as the sentence of its derivation |
| `PluralParser.RoundTrip` | zmailer/intl/plural.c:842-919 | lexing and parsing the parenthesised text, up to the end or a `;`, returns the same expression if and only if its stack depth is below the limit, in particular for every height below 2000 |
| `PluralText.ParsesSpelled` | zmailer/intl/plural.c:596-1110 | every sentence of the grammar, written with any blanks and ended by `;`, a newline or the end, is parsed as its expression if and only if its derivation needs fewer than 9999 places |
| `PluralText.Germanic` | zmailer/intl/plural.c:596-1110 | `n != 1;` is parsed as the comparison of n and 1 |
| `PluralText.TwoOperators` | zmailer/intl/plural.y:159-166 | of two operators the second takes the middle operand if and only if it binds tighter |
| `PluralParser.EvalIsExact` | zmailer/intl/eval-plural.h:31-114 | wherever an expression has a value in the integers, with every reached part in the range of unsigned long and no division by zero, plural_eval computes it |
| `PluralText.EvalModulo` | zmailer/intl/eval-plural.h:31-114 | sums, differences and products of any size are the integer values modulo 2^64 |
| `InetText.RoundTrip` | zmailer/libc/inet_ntop.c:127-216 | the text printed for any 16-byte address with its leftmost longest zero run is read back as that address |
| `InetText.QuadOfText4` | zmailer/libc/inet_ntop.c:95-111 | the text printed for any IPv4 address is read back as that address and has at most 15 characters |
| `InetForm.QuadParts` | zmailer/libc/inet_ntop.c:95-111 | its four numbers have no leading zeros |
| `InetPton.InetPton4` | zmailer/libc/inet_pton.c:99-137 | accepts exactly four decimal numbers up to 255 separated by dots, stores them, and touches nothing otherwise |
| `InetPton.InetPton6` | zmailer/libc/inet_pton.c:154-237 | accepts exactly the texts whose parts between colons are groups up to ffff, one empty part, and perhaps a final dotted quad, and stores prefix, zeros and suffix; touches nothing otherwise |
| `InetForm.UpperAddress` | zmailer/libc/inet_pton.c:154-237 | the digits a to f may be written in upper case |
| `InetForm.QuadOfDigits` | zmailer/libc/inet_pton.c:99-137 | four texts of digits, also with leading zeros, are a dotted quad if and only if none is empty or above 255 |
| `InetForm.EightGroups` | zmailer/libc/inet_pton.c:154-237 | eight texts of hexadecimal digits, also with leading zeros, are an address if and only if none is above ffff |
| `InetForm.HighByteFirst` | zmailer/libc/inet_pton.c:196-203 | the high-order byte of each group is stored first |
| `InetForm.NextHex` | zmailer/libc/inet_pton.c:173-186 | the value of each hexadecimal digit, by its character code |
| `InetForm.NextDecimal` | zmailer/libc/inet_pton.c:111-124 | the value of each decimal digit, by its character code |
| `InetPton.ShiftByHand` | zmailer/libc/inet_pton.c:216-232 | the shift leaves prefix, zeros and suffix, and only prefix and zeros if there is no gap |
| `InetText.FullWithDoubleColon` | zmailer/libc/inet_pton.c:148-232 | a `::` anywhere in a full address, also before a dotted quad, replaces all that follows it by zeros, so it is ignored if and only if that is zero already |
| `InetText.NeverIgnored` | zmailer/libc/inet_pton.c:148-232 | so with a last group that is not zero, a `::` before it always changes the address |
| `InetNtop.FindRun` | zmailer/libc/inet_ntop.c:153-181 | finds the longest run of zero words, the leftmost of equal ones, if it has at least two |
| `InetNtop.InetNtop6` | zmailer/libc/inet_ntop.c:127-216 | prints the words around the best run in lower case without leading zeros, with a `::` if and only if two words in a row are zero, and a dotted quad at the end if and only if the first ten bytes are zero and the next two are ff ff, or zero with the two after them not zero; never leaves the 46 bytes of tmp, succeeds exactly if text and NUL fit, and the text is read back as the address |
| `InetForm.TextIsCanonical` | zmailer/libc/inet_ntop.c:183-206 | this form, on the characters of the text and the bytes of the address |
| `InetForm.TextIsPrinted` | zmailer/libc/inet_ntop.c:183-206 | the parts between the colons are the words before and after the leftmost longest run |
| `InetNtop.InetNtop4` | zmailer/libc/inet_ntop.c:95-111 | stores the dotted quad and its NUL, and nothing else, exactly if its length without the NUL is at most size |
| `InetNtop.Ntop4Inside` | zmailer/libc/inet_ntop.c:104-109 | what lies behind the size places of dst is unchanged if and only if the text does not have exactly size characters |
| `InetNtop.NulBehind` | zmailer/libc/inet_ntop.c:104-109 | 1.1.1.1 with a size of 7 puts the NUL into the eighth place |
| `InetNtop.ThereAndBack` | zmailer/libc/inet_ntop.c:127-216 | printing any address and parsing the text succeeds and gives the same 16 bytes |
| `Md5.Context.Update` | zmailer/libc/md5c.c:118-153 | the state folds the full blocks, the buffer holds the tail, and the counters hold the number of bits modulo 2^64, for the old message followed by the input |
| `Md5.Context.Final` | zmailer/libc/md5c.c:159-183 | the digest is the fold over the message padded as in RFC 1321, and the context is cleared |
| `Md5Format.FirstState` | zmailer/libc/md5c.c:108-111 | the first state is the one whose bytes section 3.3 of RFC 1321 lists |
| `Md5Format.PaddedByPlace` | zmailer/libc/md5c.c:159-178 | byte by byte: 0x80 behind the message, zeros, the number of bits modulo 2^64 in the last eight bytes, and no shorter multiple of 64 has room |
| `Md5Format.ShortMessages` | zmailer/libc/md5c.c:118-183 | messages below 56 bytes are one block, those below 120 bytes two |
| `Md5.Carry` | zmailer/libc/md5c.c:129-132 | the carry test on the low 32 bits and the shifted-out bits of the length keep the two counters right |
| `Md5.DigestOfChunks` | zmailer/libc/md5c.c:102-183 | however a message is split into updates, the digest is the one of the whole message |
| `Catalog.ReachesEverySlot` | zmailer/intl/dcigettext.c:722-757 | with a prime table size the double-hash probe visits every slot |
| `Catalog.SlotIs` | zmailer/intl/dcigettext.c:722-757 | after k steps the probe is at the hash plus k times the increment, modulo the size |
| `Catalog.FindHashed` | zmailer/intl/dcigettext.c:716-759 | with an empty slot the probe ends, and returns the first string that linear search finds, or none |
| `Catalog.Augment` | zmailer/intl/loadmsgcat.c:1220-1245 | every earlier entry stays findable, every system dependent string becomes findable, and each takes one empty slot |
| `Catalog.LoadAndFind` | zmailer/intl/loadmsgcat.c:1220-1245 | after loading, a lookup gives the answer of linear search over all strings while one slot is left |
| `Catalog.FindSorted` | zmailer/intl/dcigettext.c:760-785 | binary search in the sorted strings gives the answer of linear search |
| `Strcmp.CompareAt` | zmailer/intl/dcigettext.c:773 | the first difference decides, by character code |
| `Strcmp.ComparePrefix` | zmailer/intl/l10nflist.c:303 | a text comes before its continuations |
| `Catalog.PluralLookup` | zmailer/intl/dcigettext.c:1003-1039 | returns the start of the variant with the evaluated index, or of the first one if there are not that many |
| `BitCount.PopCounts` | zmailer/intl/l10nflist.c:172-183 | adding neighbouring fields counts the bits of every 16-bit number |
| `BitVectors.PopWordCounts` | zmailer/intl/l10nflist.c:172-183 | the masks, shifts and sums of pop, on 16-bit words, count the bits of the word |
| `BitVectors.EvensIsMask` | zmailer/intl/l10nflist.c:177 | the arithmetic of the first step is the mask 0x5555 |
| `BitVectors.PairsIsMask` | zmailer/intl/l10nflist.c:178 | the arithmetic of the second step is the mask 0x3333 |
| `BitVectors.NibblesIsMask` | zmailer/intl/l10nflist.c:179 | the arithmetic of the third step is the mask 0x0f0f |
| `BitVectors.SubIsMask` | zmailer/intl/l10nflist.c:362 | being a submask is that no bit lies outside the mask |
| `BitVectors.BitIsMask` | zmailer/intl/l10nflist.c:363-364 | testing a flag by halving is the bitwise test |
| `BitCount.CountIsPower` | zmailer/intl/l10nflist.c:361-365 | a mask has exactly two to the number of its bits submasks |
| `L10nList.SuccessorsFit` | zmailer/intl/l10nflist.c:330-387 | the successors of a file and the terminating NULL fit the array that was allocated |
| `L10nList.Pool.Make` | zmailer/intl/l10nflist.c:186-390 | ends, keeps the pool strictly decreasing by file name without losing a file, returns the file of that name, and gives a new one exactly its successors in order, each the pool's own file of that name, then NULL |
| `L10nNames.TakenApart` | zmailer/intl/l10nflist.c:243-296 | cut at its slashes and marks, a name gives back the directories, the language and exactly the components whose bits are set |
| `L10nNames.AbsoluteLanguage` | zmailer/intl/l10nflist.c:214-215 | an absolute language makes the directories irrelevant |
| `L10nNames.NamesDiffer` | zmailer/intl/l10nflist.c:361-364 | the bit patterns for which successors are made have different names |
| `L10nNames.NamesDifferExactly` | zmailer/intl/l10nflist.c:243-296 | they do if and only if codeset and normalized codeset differ, modifier and special differ, and the sponsor is not empty |
| `L10nNames.AllowedIsMask` | zmailer/intl/l10nflist.c:362-364 | the test on a bit pattern, on 16-bit words with the masks written out |
| `L10nNames.BelowAt` | zmailer/intl/l10nflist.c:361-385 | the successors come from the greatest pattern down, for each directory one |
| `Rfc822Scan.ScanThenPrint` | zmailer/lib/token.c:142-178 | if no token of a text is an error, a comment or cut at 50000, printing the tokens gives the text back |
| `Rfc822Tokens.ScanExactly` | zmailer/lib/rfc822scan.c:401-546 | the scanner delivers toks if and only if they are the tokens of the text by the character table alone: kind, extent and errors of each |
| `Rfc822Tokens.OneFirstToken` | zmailer/lib/rfc822scan.c:425-530 | a text has only one first token |
| `Rfc822Tokens.PrintedForms` | zmailer/lib/token.c:154-172 | the delimiters and the quoting backslash that a token is printed with |
| `Rfc822Tokens.MessageLengths` | zmailer/lib/rfc822scan.c:236-246 | an error token is as long as its message |
| `Rfc822Scan.Scan822` | zmailer/lib/rfc822scan.c:401-546 | returns the tokens of the text, errors with their messages, under the table with the temporary specials, and restores the table unless the same special was given twice |
| `Rfc822Scan.SpecialStays` | zmailer/lib/rfc822scan.c:416-545 | scanning with `!` as both specials leaves it special |
| `Rfc822Tokens.TemporarySpecial` | zmailer/lib/rfc822scan.c:417-424 | a temporary special changes one bit of one entry of the table, and NUL is none |
| `Rfc822Scan.EndsThere` | zmailer/lib/rfc822scan.c:279-305 | a compound token is closed at the first character that brings the nesting to zero, not counting characters after an odd number of backslashes, and is open or dangling exactly if there is none |
| `Rfc822Scan.HdrCompound` | zmailer/lib/rfc822scan.c:261-335 | finds the end of a quoted string, domain literal or nested comment, with its escapes, or reports how it fails |
| `Rfc822Scan.PrintdToken` | zmailer/lib/token.c:142-178 | the text of the tokens, error messages included, and a NUL are in the buffer, which was extended before every write that needed it |
| `Rfc822Fold.HdrLines` | zmailer/lib/rfc822scan.c:261-335 | over continuation lines the loop ends where the nesting that is carried from line to line closes, with the length and the errors of all lines |
| `Rfc822Fold.CountedLength` | zmailer/lib/rfc822scan.c:278-331 | the length falls short of the characters and line breaks by the number of lines that end with an unescaped backslash |
| `Rfc822Fold.Unfold` | zmailer/lib/rfc822scan.c:340-382 | writes at most len characters, and joins all lines up to the end of the token, each by one space and without its leading white space, if and only if the length reaches |
| `Rfc822Fold.UnfoldedMore` | zmailer/lib/rfc822scan.c:354-378 | a continuation line adds one space and its text without leading white space and line feeds |
| `Rfc822Fold.FlatOne` | zmailer/lib/rfc822scan.c:354-378 | a line feed, and no other character, is left out of the joined text |
| `Rfc822Fold.TrimmedIs` | zmailer/lib/rfc822scan.c:381-384 | the spaces at the end of a comment, and only they, are left out |
| `Rfc822Fold.Continued` | zmailer/lib/rfc822scan.c:454-487 | the text is complete and the end of the token is found if and only if at most two lines (one, if it is not closed) end with such a backslash, or one more and the last line is white |
| `Rfc822Fold.CutToken` | zmailer/lib/rfc822scan.c:288-300 | a comment of n lines with one backslash each is complete if and only if n is at most two |
| `Rfc822Scan.ThereAndBack` | zmailer/lib/rfc822scan.c:401-546 | scanning a line and printing its tokens rebuilds it under that condition |
| `LineBuffer.Reader.ZGetLine` | zmailer/lib/linebuffer.c:64-114 | returns the next piece of buffer and file, up to and including a newline, and what remains is the rest; the discard test drops nothing |
| `LineBuffer.WholeLine` | zmailer/lib/linebuffer.c:64-114 | a piece is a whole line if and only if the line is shorter than the buffer |
| `LineBuffer.LineTooLong` | zmailer/lib/linebuffer.c:64-114 | a line of 8192 characters comes through the smallest buffer in two pieces |
| `LineBuffer.ReadAll` | zmailer/lib/linebuffer.c:64-114 | over a whole file the pieces are the file, a newline is only at the end of a piece, and if every line fits they are the lines |
| `LineBuffer.LinesOfUnlines` | zmailer/lib/linebuffer.c:64-114 | the lines of a text are what was written line by line |
| `LineBuffer.Reader.ZLineOffset` | zmailer/lib/linebuffer.c:137-142 | is the total length returned so far |
| `StrMatch.StrMatch` | zmailer/lib/strmatch.c:20-93 | ends, and returns 1 if and only if the term is a concatenation of parts that the atoms of the pattern admit |
| `StrMatch.Bracket` | zmailer/lib/strmatch.c:45-78 | a closed bracket takes the character exactly if it is a member or in a range, or not, when negated |
| `Patterns.QuotedText` | zmailer/lib/strmatch.c:37-43 | with a backslash in front of every character a text accepts exactly itself |
| `Patterns.LoneBackslash` | zmailer/lib/strmatch.c:37-43 | a backslash at the end accepts nothing |
| `Patterns.OrdinaryText` | zmailer/lib/strmatch.c:87-90 | a pattern without special characters accepts exactly itself |
| `Patterns.QuestionMarks` | zmailer/lib/strmatch.c:78-82 | n question marks accept exactly the texts of n characters |
| `Patterns.StarThenText` | zmailer/lib/strmatch.c:29-35 | a star and ordinary characters accept exactly the texts that end with them |
| `Patterns.TextThenStar` | zmailer/lib/strmatch.c:29-35 | ordinary characters and a star accept exactly the texts that begin with them |
| `Patterns.BracketText` | zmailer/lib/strmatch.c:45-76 | a bracket accepts exactly the single characters that are members, or with `!` those that are not |
| `Patterns.UnclosedText` | zmailer/lib/strmatch.c:51-52 | an unclosed bracket accepts nothing, or with `!` every text whose first character is not a member |
| `Patterns.InARow` | zmailer/lib/strmatch.c:20-93 | a complete pattern followed by another accepts exactly a text of the one followed by a text of the other |
| `StrMatch.RangeExact` | zmailer/lib/strmatch.c:54-65 | a range x-y takes c as it says if and only if c has 7 bits and x is not 255, or c has 8 bits and is not in x-y behind x |
| `StrMatch.HighRanges` | zmailer/lib/strmatch.c:57-58 | the range from 192 to 255 does not take 233, and the one from 255 to 255 takes an `a` |

## Left out

- Address lookup, sockets, interfaces, mail submission, logging and process plumbing in `lib` and `libc`: foreign calls.
- Character set conversion, file mapping, byte swapping and reading of `.mo` files; the translation cache and the locale search order.
- The body and the constants of `MD5Transform`, and the hash functions: parameters of the model.
- `scan822utext`, `printToken` with its fixed buffer, and the `fprint` routines.
- Out-of-memory paths, statistics counters, the debugging variants, and the overflow of `int` counters such as the number of elements and the buffer sizes.
- The NULL arguments for which the functions of `symbol.c` return at once.
- `SplayTree.Sptree.Alloc`: the block of nodes that `_sp_alloc` gets from one `emalloc` is modelled as that many single nodes.
- `SplayTree.Sptree.Scan`: the callback may delete the node it is given or not; other changes by a callback are not modelled.
- `LineBuffer.Reader.ZGetLine`: `fread` delivers less than asked only at the end of the file, and the overlapping `memcpy` is taken to move the bytes.
- `StrMatch.StrMatch`: characters have 8 bits; whether `char` is signed makes no difference, since no character of a range is above 127.
- `Rfc822Scan.Scan822`: scans one line; how a compound token takes in continuation lines is in `Rfc822Fold`, the rest of the line after it is not scanned there.
- `Rfc822Fold.Continued`: lines are C strings without a NUL inside.
- `Rfc822Scan.ScanThenPrint`: a token of exactly 50000 characters counts as cut, since it cannot be told from a longer one.
- `L10nList.Pool.Make`: the file name is built as a sequence, not in a malloc'ed buffer; masks have at most 16 bits.
- `Allocate.Region.Alloc`: the address that `malloc` returns is a parameter; the bytes that an overrun damages are not modelled.
- `InetNtop.InetNtop4`: the caller must have room for the NUL that the size test does not count.
- `Md5.Context.Update`: unsigned long has 32 or 64 bits.
