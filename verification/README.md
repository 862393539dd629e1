# A verified model of the MUXX executive and its 2.11BSD library

MUXX is a small executive for the PDP-11 that carries a good part of the 2.11BSD C library.  This project
models the algorithms of that library that are hardest to get right, and the state machines of the
executive's own kernel, and proves what each of them promises.  Code that changes things in place is
modelled by classes, arrays and loops; every such method is tied to a function of the values it works on,
and the promises are proved of that function or kept as invariants of the class.

`dafny verify dfyconfig.toml` checks everything.

| component | files |
|---|---|
| ndbm, extensible hashing on disk | `NdbmHash`, `NdbmPage`, `NdbmTrie`, `NdbmDir`, `NdbmMap`, `NdbmCohort`, `NdbmScan`, `NdbmStoreScan`, `Ndbm` |
| malloc, free and realloc | `Malloc` |
| re_comp and re_exec | `RegexSyntax`, `RegexText`, `RegexCode`, `Regex` |
| qsort | `QsortOrder`, `Qsort` |
| compression of domain names | `DnsName`, `DnsText`, `DnsWire`, `DnsExpand`, `DnsComp` |
| DES and the chained text cipher | `DesTables`, `DesBoxes`, `Des`, `DesCipher`, `DesDigits`, `DesKnown`, `NbsText`, `Nbs` |
| stdio output | `Stdio` |
| getmode and compress_mode | `SetmodeBits`, `Setmode` |
| random | `Random`, `RandomTable` |
| offtime | `Offtime` |
| scheduling | `TaskQueue`, `Schedule`, `Scheduler` |
| physical memory and page maps | `MemSvc`, `TaskMem` |

## How the parts are modelled

**ndbm.**  The two files are sequences of blocks, the caches are byte arrays, and writes succeed.  A ghost map
`m` is what the files denote; `Valid()` says that each key lies only on the page that its hash reaches through
the directory bits.  Hashes are any fixed function to natural numbers; `NdbmHash` is the one that the code uses.

**malloc.**  The data segment is a sequence of words, a header word holds twice an address plus the busy bit,
and the ghost sequence `hs` lists the headers from `allocs` to `alloct`.  Other users of `sbrk` and the owners of
live blocks act through `OtherBreak` and `Put`.

**Regular expressions.**  `RegexSyntax` says what a pattern string means (`Parse`) and which strings a pattern
matches; `RegexText` says the same of the pattern's text in the words of the rules that the source begins with;
`RegexCode` is the byte code; `Regex` is the code on `expbuf`.  Characters are signed char values.

**Domain names.**  A message is an array of bytes; the byte behind the message, which dn_expand may read, is a
parameter.  The list of earlier names is a field, and ghost fields record every name written.

**DES.**  Bits are the integers 0 and 1; L and R are one array of 64, as the code's own final loop treats them.
`DesBoxes` has the published properties of the selection tables, `DesKnown` a published answer worked out round by
round.

**Scheduling.**  `Schedule` is the state machine over ticks, yields, suspensions and new tasks; `Scheduler` is the
kernel's code on linked queues, each entry point a step of that machine, but for the suspension of another
process.

**Masks of setmode** are the sets of the numbers of their one bits.  The values of the `S_` constants are the
usual ones; sys/stat.h is not part of this model.

## What the code does that its documentation does not say

* dbm_store splits for ever exactly when a pair that fits an empty page, and that the call may write, does not fit
  on one page together with the stored pairs of the same hash and other keys (`NdbmCohort.StoreNeverEnds`);
  otherwise it ends (`Ndbm.Dbm.Store`).  The keys "aco" and "bbn" have the same hash, and with values of 600 bytes
  storing the second one never ends (`NdbmCohort.TwoLargePairs`).
* A key deleted during a scan can take another key from it: the pairs behind it move down, and dbm_nextkey does
  not reset `keyptr` on a page that deletions have emptied (`NdbmScan.DeletionLosesKey`).
  `NdbmScan.DeleteDuringScan` says exactly when a deletion is harmless; deleting the key that has just come is
  harmless only if it was the last of several on its page, or the last of all (`NdbmScan.DeleteWhatCame`).
* A key stored during a scan can cost the scan a key or make one come twice.  A new key without a split takes none;
  replacing a value moves its pair to the end of its page; a split moves pairs to pages that the scan has yet to
  visit, and others down on the page it stands on.  `NdbmStoreScan.NewKeyDuringScan`, `ReplaceDuringScan` and
  `SplitDuringScan` say exactly when, `StoreDuringScan` says it for any state of the scan, and
  `NdbmStoreScan.SplitLosesKey` is a case: after "a" has come, storing "f" makes "a" come again and "d" never.
* The comment in dn_expand says that a name refused by its counter must contain a loop.
  `DnsName.CounterRefusesWithoutLoop` gives a message where it does not; `DnsName.ReadExactly` says which names the
  counter admits, and names that dn_comp has written are always among them (`DnsWire.EncodedReads`).
* dn_expand puts a backslash before a dot but not before a backslash, so that its text does not always tell the labels:
  it does exactly if none but the last ends in a backslash (`DnsText.LabelsBack`, with `DnsText.SameText` for two names
  of one text).
* dn_comp means to take a trailing dot but not two; it takes two (`DnsText.SplitExact`, with `DnsText.TwoDots` for a
  case).
* When dn_comp fails it leaves the places of the unfinished name in the list, unless the text is empty, the list
  is not used or full, or the whole name was found (`DnsComp.Message.Comp`, with `DnsComp.FailedNameStays` for a case).
  The next call searches those places: after "a..b" was refused, "a" is written to the same place as a pointer to
  itself, with success (`DnsComp.PointsToItself`).
* The comment on setstate says that it may be called with the current array.  The rear pointer then goes back to
  where initstate or setstate left it: it is kept exactly if the draws since went round the table a whole number of
  times, and the stream goes on with its words rotated by the rest (`Random.Generator.Again`).  After initstate with
  eight words and one draw the stream is another one, whatever the seed (`Random.Generator.OneDrawLost`).
* muxx_qRemoveTask leaves a queue exactly if the task was first or absent (`TaskQueue.TQueue.RemoveTask`, with
  `TaskQueue.RemoveSecond` for a case), so suspending a ready process behind the first one destroys the ready queue
  (`Scheduler.Kernel.SvcSuspend`).
* The scan of muxx_mem_getblock ends exactly if the free block is large enough or nothing has been carved yet
  (`MemSvc.ScanEnds`), because each new block is linked to itself: setting up a twentieth small process never ends
  (`MemSvc.NoTwentiethProcess`, and `TaskMem.NineteenSmall` with the calls themselves).  So
  the exits of muxx_setup_taskmem for want of memory are never taken (`MemSvc.NeverNull`).
* A driver of medium size has its buffer mapped over its second private page, at the end of which its user control
  block was put (`TaskMem.ControlBlockReached`).  Of the 32 blocks of a driver's buffer its page reaches 17
  (`TaskMem.BlocksReached`).

## Model

| member | source | states |
|---|---|---|
| NdbmPage.FindDatum | bsdlibc/gen/ndbm.c:359-377 | the search of a page finds the index of a key exactly when one of the pairs that the bytes stand for has it, and never takes a value for a key |
| NdbmPage.MakDatum | bsdlibc/gen/ndbm.c:337-357 | item n of the packed bytes is the n-th key or value of the list of pairs, null behind the last |
| NdbmPage.AddItem | bsdlibc/gen/ndbm.c:485-508 | the bytes stand for the list with the pair appended, or nothing changes and the pair does not fit |
| NdbmPage.StoredHolds | bsdlibc/gen/ndbm.c:485-508 | the bytes that additem leaves are a well-formed page for the longer list: offsets descend and stay above the header |
| NdbmPage.DelItem | bsdlibc/gen/ndbm.c:453-483 | the bytes stand for the list without one pair; an index that is no key's place is refused |
| NdbmPage.DroppedHolds | bsdlibc/gen/ndbm.c:453-483 | moving the later items and closing the table keeps every other pair as it was |
| NdbmTrie.HomeDeterminesLeaf | bsdlibc/gen/ndbm.c:264-286 | two hashes that reach the same page reach the same leaf: distinct leaves of the trie never share a page |
| NdbmTrie.SplitLeaf | bsdlibc/gen/ndbm.c:264-335 | setting the bit of a leaf moves exactly the hashes of that leaf one level down and no other |
| NdbmTrie.SplitFresh | bsdlibc/gen/ndbm.c:200-212 | the page for the upper half of a split is no page that any hash reached before |
| NdbmDir.ReadBit | bsdlibc/gen/ndbm.c:288-309 | the byte and bit that getbit looks at hold a bit number exactly when it is in the set the directory stands for, absent blocks and numbers above the maximum included |
| NdbmDir.WriteBit | bsdlibc/gen/ndbm.c:311-335 | the block that setbit writes makes the directory stand for the set with that one bit number added |
| NdbmMap.SearchDecides | bsdlibc/gen/ndbm.c:89-109 | a key is in the map exactly if it is on the page its hash reaches |
| NdbmMap.KeyOnOnePage | bsdlibc/gen/ndbm.c:139-214 | no key is stored on two pages, or twice on one |
| NdbmMap.InsertDenotes | bsdlibc/gen/ndbm.c:158-168 | a pair appended to its page makes the files denote the map with that pair |
| NdbmMap.RemoveDenotes | bsdlibc/gen/ndbm.c:111-137 | a pair taken from its page makes the files denote the map without its key |
| NdbmMap.SplitDenotes | bsdlibc/gen/ndbm.c:174-213 | a split moves pairs to the page that their hashes now reach, and the files denote the same map: none is lost and none is doubled |
| NdbmCohort.EnospcExact | bsdlibc/gen/ndbm.c:175-179 | the ENOSPC test rejects exactly the pairs that do not fit an empty page |
| NdbmCohort.FailsAboveBound | bsdlibc/gen/ndbm.c:149-214 | a leaf deep enough to hold nothing but equal hashes has room, so a failed append was higher up: the reason why splitting ends |
| NdbmCohort.StoreNeverEnds | bsdlibc/gen/ndbm.c:149-214 | every round of the loop, counted from the one that drops the key's old pair, finds no key, no room and no ENOSPC, exactly if a pair that fits an empty page does not fit together with the pairs of the map that have the same hash and other keys |
| NdbmCohort.CohortIsKin | bsdlibc/gen/ndbm.c:264-286 | the pairs of equal hash on the home page of a key are all the pairs of the map with that hash and another key |
| NdbmCohort.KinDecides | bsdlibc/gen/ndbm.c:485-508 | whether there is room beside them can be read off any list of those pairs, in whatever order |
| NdbmCohort.TwoLargePairs | bsdlibc/gen/ndbm.c:149-214 | pairs of the keys "aco" and "bbn" with values of 600 bytes each fit a page, and storing the second one never ends |
| NdbmHash.DcalcHash | bsdlibc/gen/ndbm.c:429-448 | the loop over the halves of the bytes computes the hash |
| NdbmHash.SameHash | bsdlibc/gen/ndbm.c:379-448 | "aco" and "bbn" have the same hash |
| Ndbm.Partition | bsdlibc/gen/ndbm.c:181-199 | the loop of the split leaves the pairs without the new mask bit in the page and puts those with it in the overflow buffer, in order |
| Ndbm.Dbm.Access | bsdlibc/gen/ndbm.c:264-286 | the buffer holds the page that the hash reaches through the directory bits |
| Ndbm.Dbm.GetBit | bsdlibc/gen/ndbm.c:288-309 | the answer is the directory bit, whichever block was cached |
| Ndbm.Dbm.SetBit | bsdlibc/gen/ndbm.c:311-335 | the directory file has that bit and no other in addition |
| Ndbm.Dbm.Fetch | bsdlibc/gen/ndbm.c:89-109 | the value of the key in the map, or null |
| Ndbm.Dbm.Delete | bsdlibc/gen/ndbm.c:111-137 | the key is gone from the map, or nothing changed and the result is -1; a scan under way loses no other key exactly if the deletion was harmless |
| Ndbm.Dbm.Store | bsdlibc/gen/ndbm.c:139-214 | the map has the new value, through any number of splits; an existing key without replace gives 1 and a pair too large -1, both leaving pages and directory; the place of a scan never changes, each key comes at most once from there on, the pages are those after the first number of splits that makes room, and without a split the scan goes on as stated for it |
| Ndbm.Dbm.FirstKey | bsdlibc/gen/ndbm.c:216-223 | the first key of the scan, or null; null after an error |
| Ndbm.Dbm.NextKey | bsdlibc/gen/ndbm.c:225-262 | the next key still to visit, whatever page was cached and wherever deletions have left the place; null after an error |
| Ndbm.ScanAll | bsdlibc/gen/ndbm.c:216-262 | dbm_firstkey and then dbm_nextkey until null, with fetches between the calls, give every stored key exactly once |
| NdbmScan.ScanVisitsAll | bsdlibc/gen/ndbm.c:216-262 | the keys to visit from the start are the keys of the map, each exactly once |
| NdbmScan.DeleteDuringScan | bsdlibc/gen/ndbm.c:225-262 | after a deletion no key comes that would not have come before, and all others still come exactly if the deleted pair was on another page or still ahead, or its page was done and keeps a pair, or no later page has one |
| NdbmScan.DeleteWhatCame | bsdlibc/gen/ndbm.c:225-262 | deleting the key that has just come loses no other exactly if it was the last of several on its page, or the last of all |
| NdbmScan.DeletionLosesKey | bsdlibc/gen/ndbm.c:225-262 | of three keys on a page the first comes, is deleted, and the second never comes |
| NdbmStoreScan.DueComes | bsdlibc/gen/ndbm.c:225-262 | the keys that still come are those of the pairs that the scan has not passed, on its page or behind it |
| NdbmStoreScan.Sifts | bsdlibc/gen/ndbm.c:181-212 | after any number of splits the page of a hash holds the pairs of the split page that go there, in order |
| NdbmStoreScan.PlacedAt | bsdlibc/gen/ndbm.c:149-214 | after a store every other pair is found at the place computed from the old one |
| NdbmStoreScan.StoreDuringScan | bsdlibc/gen/ndbm.c:139-262 | for every state of the scan and any number of splits: which keys come with the store and which without it, the key stored included, each at most once and no others |
| NdbmStoreScan.NewKeyDuringScan | bsdlibc/gen/ndbm.c:139-262 | a new key stored without a split takes none from the scan, comes exactly if the end of its page is not yet passed, and brings another passed key back exactly if the scan, at a place other than 0, was about to run over empty pages and the pair lies on one of them |
| NdbmStoreScan.NewKeyPlain | bsdlibc/gen/ndbm.c:139-262 | a scan on a page with pairs, or at place 0, then visits the same keys and the new one exactly if it is behind its place |
| NdbmStoreScan.ReplaceDuringScan | bsdlibc/gen/ndbm.c:139-262 | a value replaced without a split costs the key that was next and makes the stored key come again exactly if the scan stands on its page, past its pair and not past all others; otherwise the same keys come |
| NdbmStoreScan.SplitDuringScan | bsdlibc/gen/ndbm.c:139-262 | with splits, a key is lost exactly if it was not yet passed on the scan's page and now stands on it before the place of the scan, and comes although passed exactly if the split moved it to a page behind |
| NdbmStoreScan.PlacedScan | bsdlibc/gen/ndbm.c:139-262 | these statements hold for whatever lists a store leaves |
| NdbmStoreScan.SplitLosesKey | bsdlibc/gen/ndbm.c:139-262 | of "a" and "d" on one page "a" has come; storing "f" splits the page, and then come "f" and "a", never "d" |
| NdbmCohort.RoundAdded | bsdlibc/gen/ndbm.c:149-173 | the round with room leaves the lists of a store that took as many splits as it needed and no more |
| NdbmDir.BitValue | bsdlibc/gen/ndbm.c:298-308 | bit n of a directory byte is worth the n-th power of two |
| NdbmPage.OnePairPage | bsdlibc/gen/ndbm.c:485-508 | the bytes of a page with one pair: count and offsets with the low byte first, the items from the end down |
| Malloc.MergeChain | lib/gen/malloc.c:102-109 | swallowing the next free block keeps the headers increasing, linked and wrapping once |
| Malloc.NoTailRun | lib/gen/malloc.c:100-122 | after two passes without success no run of free blocks at the end of the arena is large enough, which bounds the growth |
| Malloc.CarveChain | lib/gen/malloc.c:142-150 | the stores at the label found leave an increasing chain on which every live block is busy and large enough, and the new one too |
| Malloc.LiveDisjoint | lib/gen/malloc.c:43-80 | live blocks have no word in common and lie within the data segment |
| Malloc.CarvedKeepsData | lib/gen/malloc.c:142-150 | an allocation changes no word of any live block |
| Malloc.Arena.Coalesce | lib/gen/malloc.c:102-108 | all free blocks behind a free one are joined to it, and the chain, the live blocks and the end of the arena are kept |
| Malloc.FoundFits | lib/gen/malloc.c:100-112 | a block found with room after joining is a run of free blocks that had room in the arena as it was |
| Malloc.PassedOver | lib/gen/malloc.c:100-122 | no header in a block that the search passed over began a run of free blocks with room |
| Malloc.Arena.Search | lib/gen/malloc.c:99-122 | a round ends with a large enough free block, or with every free block joined and found too small |
| Malloc.Arena.Grow | lib/gen/malloc.c:123-141 | the arena reaches the break, extended by a free block, whoever moved the break before |
| Malloc.Arena.Malloc | lib/gen/malloc.c:84-151 | a new live block of at least the bytes asked for, apart from all others; the search ends; allocx is the word that the remainder's header has hit; the block is the first with room, joined with the free ones behind it, in the order of addresses from allocp on and then from the beginning, and beyond the old arena if none has |
| Malloc.Arena.Free | lib/gen/malloc.c:153-167 | the block is free, is where the next search begins, and no other word changes |
| Malloc.AfterMalloc | lib/gen/malloc.c:182-198 | after the block was freed and allocated anew its old words are as before, but for one that allocx has saved |
| Malloc.Arena.Copy | lib/gen/malloc.c:193-196 | copying upwards into a block that begins below never reads a word already overwritten |
| Malloc.Arena.Realloc | lib/gen/malloc.c:169-200 | the first min(old, new) words are those of the old block, even when the two overlap, and all other live blocks keep theirs; for no bytes the block is just freed |
| RegexSyntax.MatchesInLanguage | bsdlibc/gen/regex.c:33-77 | the stepwise meaning of items is membership of a substring in the pattern's language, ending the string when a dollar is asked for |
| RegexSyntax.FoundInLanguage | bsdlibc/gen/regex.c:227-261 | a match exists exactly if some substring is in the language: a prefix for a circumflex, a suffix for a dollar |
| RegexText.TextFound | bsdlibc/gen/regex.c:48-71 | a pattern's text, made of characters, dots, escaped characters and bracketed lists with ranges, each starred or not, is found exactly in the strings that have consecutive pieces for them: one character each, any number if starred, from the beginning for a circumflex and up to the end for a dollar |
| RegexText.GroupFound | bsdlibc/gen/regex.c:61-62 | brackets around a part of a pattern do not change where it is found |
| RegexText.DotsFound | bsdlibc/gen/regex.c:48-51 | a pattern of ordinary characters and dots is found exactly in the strings with a substring that agrees with it outside the dots |
| RegexText.PlainFound | bsdlibc/gen/regex.c:48-50 | a pattern of ordinary characters is found exactly in the strings that contain it |
| RegexText.StarredDotFound | bsdlibc/gen/regex.c:59-60 | a starred dot between two words: found exactly if the second occurs somewhere behind the first |
| RegexText.EscapedFound | bsdlibc/gen/regex.c:52-53 | a character behind a backslash is found exactly where it stands |
| RegexText.ListFound | bsdlibc/gen/regex.c:54-56 | a bracketed list is found exactly if some character is listed, with a circumflex if some is not |
| RegexText.RangeFound | bsdlibc/gen/regex.c:56-58 | a range in brackets is found exactly if some character lies between its ends |
| RegexSyntax.ParseDollarLast | bsdlibc/gen/regex.c:151-155 | only a dollar that ends the pattern is an anchor |
| RegexCode.MembersDecide | bsdlibc/gen/regex.c:157-188 | a character is stored for a class exactly if one of its characters or ranges contains it |
| RegexSteps.StepStar | bsdlibc/gen/regex.c:340-371 | a starred item matches from a place exactly if the rest matches behind some run of it |
| RegexSteps.LongestRun | bsdlibc/gen/regex.c:343-359 | the places where a run can end are all those up to the end of the longest: giving characters back one by one misses none |
| RegexProgress.StepAtom | bsdlibc/gen/regex.c:129-149 | emitting an item before knowing whether a star follows agrees with the parse that looks ahead |
| RegexProgress.StepRepeat | bsdlibc/gen/regex.c:145-149 | or-ing the star bit into the last opcode, once or more often, is the repetition of the last item |
| RegexProgress.FirstChr | bsdlibc/gen/regex.c:240-252 | code that begins with a character matches only where that character stands, so the fast scan skips nothing |
| Regex.Matcher.CClass | bsdlibc/gen/regex.c:387-401 | membership in the stored list, inverted for a negated class, and never for the end of the string |
| Regex.Matcher.CompileClass | bsdlibc/gen/regex.c:157-188 | the bytes stored for a bracket are the code of the class that its text means, its errors included |
| Regex.Matcher.Compile | bsdlibc/gen/regex.c:102-221 | expbuf holds the code of exactly what the pattern says, or the error is the one the pattern deserves and expbuf begins with zero |
| Regex.Matcher.Advance | bsdlibc/gen/regex.c:266-372 | 1 exactly if the items match from this place on, 0 if not, -1 on a byte that is no code: greedy stars with backtracking are complete |
| Regex.Matcher.Exec | bsdlibc/gen/regex.c:226-261 | 1 exactly if there is a match, at the beginning for a circumflex; the plain and the fast scan agree |
| QsortOrder.SplitKept | bsdlibc/gen/qsort.c:187-206 | disorder on one side of a pivot leaves the pivot where it belongs |
| QsortOrder.LeastEarly | bsdlibc/gen/qsort.c:57-73 | the least of the first four elements is the least of all |
| QsortOrder.InsertedSorted | bsdlibc/gen/qsort.c:81-92 | moving an element down past larger ones extends the sorted part |
| Qsort.MedianPlace | bsdlibc/gen/qsort.c:130-139 | the place chosen holds a median of the first, the middle and the last element |
| Qsort.Partition | bsdlibc/gen/qsort.c:151-186 | the pivot ends where nothing before it is above it and nothing behind it is below it, with the elements rearranged; the three kinds of exchange all keep this |
| Qsort.Pivot | bsdlibc/gen/qsort.c:130-186 | for six elements or more the pivot is a median of three, else the middle element |
| Qsort.Qst | bsdlibc/gen/qsort.c:110-207 | the part is a rearrangement in which elements three or more places apart are ordered; calls nest no deeper than the logarithm of the size |
| Qsort.Scan | bsdlibc/gen/qsort.c:82-84 | the unguarded loop stops above the first element, at the place where the element goes |
| Qsort.Insertion | bsdlibc/gen/qsort.c:81-92 | with a least element in front the rest is sorted |
| Qsort.Qsort | bsdlibc/gen/qsort.c:35-93 | for every total preorder the first n records are sorted, none lost and none twice |
| DnsName.ReadFollows | bsdlibc/net/res_comp.c:44-90 | a name that dn_expand accepts is what following its labels and pointers to the root gives |
| DnsName.CounterDecides | bsdlibc/net/res_comp.c:73-82 | a name that leads to the root is read exactly if it has no pointer, or the bytes and pointers up to its last pointer count to less than the message's size |
| DnsName.ReadExactly | bsdlibc/net/res_comp.c:44-90 | the names that are read are exactly those that lead to the root at an affordable count |
| DnsName.CounterRefusesWithoutLoop | bsdlibc/net/res_comp.c:73-82 | a message without a loop whose name the counter refuses |
| DnsExpand.FitsPrefix | bsdlibc/net/res_comp.c:50-66 | a name that fits the output has room after each of its labels |
| DnsExpand.RoomDecides | bsdlibc/net/res_comp.c:50-66 | the two tests for room let a label pass exactly if the text with it fits |
| DnsExpand.PutLabel | bsdlibc/net/res_comp.c:57-68 | the label with its dots escaped is appended, or it ran out of message or room; nothing is written at the end of the output or beyond |
| DnsExpand.Expand | bsdlibc/net/res_comp.c:29-94 | dn_expand ends on every message, writes only within the output, accepts exactly the names that the counter admits and the output has room for, and returns the size that dn_skipname does |
| DnsExpand.SkipName | bsdlibc/net/res_comp.c:177-200 | the size of a name's own bytes: through its first pointer or its root, -1 for an illegal length |
| DnsText.SpellsJoin | bsdlibc/net/res_comp.c:208-250 | the text that dn_find takes for a name is its labels with dots between, bare or with one dot behind |
| DnsText.SplitExact | bsdlibc/net/res_comp.c:131-172 | the texts that dn_comp accepts, exactly: good labels with dots between and at most two dots behind |
| DnsText.TwoDots | bsdlibc/net/res_comp.c:159-163 | "a.." is taken for "a" |
| DnsText.TextIsJoin | bsdlibc/net/res_comp.c:29-94 | the text put out for labels without dots is the labels with dots between |
| DnsText.SplitUndotted | bsdlibc/net/res_comp.c:131-172 | the labels of an accepted text, joined with dots, are the text without the dots at its end |
| DnsWire.EncodedReads | bsdlibc/net/res_comp.c:44-90 | a name whose pointers lead only to earlier places is always read back: the counter never refuses it |
| DnsWire.RunEncoded | bsdlibc/net/res_comp.c:131-172 | labels followed by a root or a good pointer are an encoded name, from each label on |
| DnsWire.SkipSize | bsdlibc/net/res_comp.c:177-200 | the size of any name: the bytes of the labels in front, one for the root, two for the first pointer, -1 at a byte that is neither; a name cut off ends where its last label would |
| DnsWire.PointerName | bsdlibc/net/res_comp.c:29-94 | a message whose name at 3 is a pointer: it takes two bytes and reads "a" |
| DnsText.LabelsBack | bsdlibc/net/res_comp.c:59-66 | the labels can be told from the text put out exactly if none but the last ends in a backslash |
| DnsText.SameText | bsdlibc/net/res_comp.c:59-66 | two names with the same text |
| DnsComp.Message.SameName | bsdlibc/net/res_comp.c:217-246 | the comparison succeeds exactly if the stored name is the one that the rest of the text spells |
| DnsComp.Message.Find | bsdlibc/net/res_comp.c:208-250 | a place given leads to a whole earlier encoding of exactly the remaining suffix; -1 means that none is listed |
| DnsComp.Message.Comp | bsdlibc/net/res_comp.c:108-172 | fails exactly if the text is no name or does not fit; else the bytes used are those needed with the listed names, every listed place still leads to its name, and earlier bytes are untouched; a failed call leaves the list alone exactly if the text is empty, the list is not used or full, or has the whole name |
| DnsComp.FailedNameStays | bsdlibc/net/res_comp.c:139-143 | a name refused for an empty label leaves the place of its first label in the list |
| DnsComp.Message.CompFound | bsdlibc/net/res_comp.c:131-138 | a text that the list has as a whole becomes a pointer to a place listed for it, whatever else the list holds, after failed calls too |
| DnsComp.PointsToItself | bsdlibc/net/res_comp.c:108-172 | after "a..b" was refused at a place, "a" is written there as a pointer to itself with success, and dn_expand never reads it |
| DnsComp.Message.ReadBack | bsdlibc/net/res_comp.c:29-172 | after any sequence of names each of them is read where it begins, and is the text that was given, without the dots at its end |
| DnsComp.Message.Reread | bsdlibc/net/res_comp.c:29-172 | dn_expand at the beginning of a name written by dn_comp puts out the text that was given without its trailing dots, exactly if the output has room, and returns the bytes that dn_comp wrote for it |
| DnsComp.Message.Pass | bsdlibc/net/res_comp.c:177-200 | dn_skipname at the beginning of a name written by dn_comp passes exactly the bytes written for it |
| DesTables.Inverse | bsdlibc/net/ruserpass.c:407-430 | the final permutation table undoes the initial one, and the other way round |
| DesBoxes.RowPermutes | bsdlibc/net/ruserpass.c:545-585 | each row of each selection table is a permutation of 0 to 15 |
| DesBoxes.OneBitChanges | bsdlibc/net/ruserpass.c:545-585 | inputs of a selection function that differ in one bit, or in the two in the middle, give outputs that differ in at least two |
| DesDigits.ExpansionPlaces | bsdlibc/net/ruserpass.c:250-259 | the expansion takes each four bits with their two neighbours |
| DesDigits.RoundHex | bsdlibc/net/ruserpass.c:638-687 | one round on hexadecimal digits, by conditions on the digits |
| DesKnown.KeyHex | bsdlibc/net/ruserpass.c:493-537 | the sixteen round keys of the key 133457799BBCDFF1 |
| DesKnown.KnownAnswer | bsdlibc/net/ruserpass.c:618-705 | the key 133457799BBCDFF1 enciphers the block 0123456789ABCDEF to 85E813540F0AB405 |
| DesKnown.Worked | bsdlibc/net/ruserpass.c:493-705 | the calls themselves give that block, and with edflag the first one back |
| Des.XorZeros | bsdlibc/net/ruserpass.c:651-652 | exclusive or with zeros changes nothing, and of equal bits is zero |
| NbsText.Alphabet | bsdlibc/net/ruserpass.c:377-395 | the characters for the numbers below 64: dot, slash, digits, upper and lower case letters |
| NbsText.LetterBits | bsdlibc/net/ruserpass.c:329-340 | the eight bits of the letter "a" in a block |
| Des.PeculiarIndex | bsdlibc/net/ruserpass.c:664-672 | the index into a selection table is the row of the outer two bits and the column of the inner four |
| Des.RoundUndone | bsdlibc/net/ruserpass.c:638-687 | a round between swaps of the halves undoes itself |
| Des.Deciphering | bsdlibc/net/ruserpass.c:618-705 | for every key schedule the same algorithm with the keys in reverse order gives the block back |
| Des.FullTurn | bsdlibc/net/ruserpass.c:455-457 | the sixteen shifts turn the halves of the key all the way round |
| DesCipher.Cipher.BlkEncrypt | bsdlibc/net/ruserpass.c:618-705 | the block becomes its encipherment with the keys in order, or with edflag in reverse order |
| DesCipher.Cipher.SetKey | bsdlibc/net/ruserpass.c:493-537 | each round key is drawn from the key bits turned by the shifts so far |
| NbsText.TextBack | bsdlibc/net/ruserpass.c:329-358 | up to eight characters of seven bits come back from their block |
| NbsText.KnotBitsBack | bsdlibc/net/ruserpass.c:360-395 | sixty-six bits come back from their eleven characters, none of which is a dollar or a zero |
| Nbs.PieceBack | bsdlibc/net/ruserpass.c:297-327 | one piece of text comes back under the same key |
| Nbs.TextComesBack | bsdlibc/net/ruserpass.c:260-295 | nbsdecrypt undoes nbsencrypt on text of any length, through the chained keys |
| Nbs.TextCipher.NbsEncrypt | bsdlibc/net/ruserpass.c:260-276 | the result is the chained encipherment of the text |
| Nbs.TextCipher.NbsDecrypt | bsdlibc/net/ruserpass.c:277-295 | the result is the chained decipherment of the text, of whatever form, and in the argument a zero replaces every dollar |
| Stdio.Stream.FlsBuf | bsdlibc/stdio/flsbuf.c:17-81 | the byte is accepted and nothing given before is lost, in every way of buffering, with a buffer still to be allocated or not to be had |
| Stdio.Stream.Putc | bsdlibc/include/stdio.h:54-60 | device followed by waiting bytes is everything given, the byte included; the counter and the pointer stay in the buffer |
| Stdio.Stream.Fflush | bsdlibc/stdio/flsbuf.c:83-99 | everything given is on the device |
| Stdio.Stream.SetVBuf | bsdlibc/stdio/setvbuf.c:54-129 | a change of buffering loses nothing; the new buffer is the caller's, one of the size asked for, one of the usual size with result -1, or none |
| Stdio.Stream.Fwrite | bsdlibc/stdio/fwrite.c:13-49 | all bytes are accepted in order, through the line path and the block path, and the count is returned |
| Stdio.Stream.LinesOut | bsdlibc/stdio/flsbuf.c:34-42 | in line mode no finished line waits, without a buffer nothing waits, and never more than a buffer |
| SetmodeBits.AddApplies | bsdlibc/gen/setmode.c:426-441 | one more command in a run changes the three masks as it changes the mode, and keeps them apart |
| SetmodeBits.AssignMeans | bsdlibc/gen/setmode.c:342-364 | an assignment gives the named classes exactly the bits asked for |
| SetmodeBits.CopyMeans | bsdlibc/gen/setmode.c:366-388 | in all classes named a copying command gives each bit the source class's value, or sets or clears it where the source has it set, and leaves the rest |
| SetmodeBits.MaskValues | bsdlibc/gen/setmode.c:164 | the masks are the usual numbers, 0700 to 06777 |
| SetmodeBits.ExecutableBits | bsdlibc/gen/setmode.c:137-140 | executable means a directory or one of the bits 0111 |
| Setmode.SqueezedMeans | bsdlibc/gen/setmode.c:404-459 | compressing keeps the result of getmode for every list, every mode and every kind of file |
| Setmode.SqueezedShort | bsdlibc/gen/setmode.c:404-410 | neighbouring plain commands are of different kinds in the order clear, set, set if executable |
| Setmode.ShortRuns | bsdlibc/gen/setmode.c:404-410 | no four plain commands stand together |
| Setmode.SqueezedTwice | bsdlibc/gen/setmode.c:411-459 | compressing once is enough |
| Setmode.GetMode | bsdlibc/gen/setmode.c:81-149 | the mode is the result of the commands one after the other; what is executable is asked of the old mode |
| Setmode.CompressMode | bsdlibc/gen/setmode.c:411-459 | in place, the list becomes its compression, the writing place never ahead of the reading place |
| Random.StepsWords | bsdlibc/gen/random.c:333-353 | the table holds the words of the stream in which each is the sum of the ones deg and sep before it |
| RandomTable.BuiltIn | bsdlibc/gen/random.c:100-122 | the table used before any seeding is exactly what initstate makes of the seed 1 and 128 bytes |
| RandomTable.Polynomials | bsdlibc/gen/random.c:59-84 | the recurrences of the four types are those of the polynomials named for them |
| Random.RingStep | bsdlibc/gen/random.c:344-353 | adding the rear word to the front word is one step of the recurrence on the ring |
| Random.SavedWord | bsdlibc/gen/random.c:220-222 | type and rear pointer can be told apart again from the word that keeps them |
| Random.Generator.Next | bsdlibc/gen/random.c:333-353 | the number is half the new word, or the congruential successor; the pointers stay sep apart and never wrap together |
| Random.Generator.Srandom | bsdlibc/gen/random.c:174-193 | the stream is that of the congruential words after ten times deg steps, with the rear pointer at the first word again |
| Random.Generator.Initstate | bsdlibc/gen/random.c:213-266 | the largest generator that fits is seeded, the old array keeps its stream, and too little state changes nothing |
| Random.Generator.Setstate | bsdlibc/gen/random.c:281-320 | the stream of the array goes on where its first word says, and the array left keeps its own |
| Random.Generator.Detour | bsdlibc/gen/random.c:281-353 | another array for any number of draws, and back: the first stream goes on unchanged |
| Random.Generator.Again | bsdlibc/gen/random.c:268-320 | with the current array, any number of draws after initstate or setstate, the rear pointer goes back to where it was before the draws; it is kept exactly if the type is 0 or the draws are a multiple of deg, and the words that go on are those that should, rotated by the rest |
| Random.Generator.OneDrawLost | bsdlibc/gen/random.c:213-320 | initstate with eight words, one draw and setstate with the same array: for every seed another stream goes on |
| Random.RewoundTable | bsdlibc/gen/random.c:268-320 | a table after one draw: the stream that goes on and the one that setstate brings back differ |
| Offtime.YearLength | bsdlibc/include/tzfile.h:101 | the leap rule agrees with the count of leap days in closed form, for all years, negative ones included |
| Offtime.DayIsCivil | bsdlibc/gen/ctime.c:324-387 | the day of a date by a formula without tables, in years that begin with March |
| Offtime.Weekday | bsdlibc/gen/ctime.c:362-364 | the day of the week by that formula |
| Offtime.KnownDates | bsdlibc/gen/ctime.c:324-389 | second 0 is Thursday, 1 January 1970, and second 951782400 Tuesday, 29 February 2000 |
| Offtime.OneAnswer | bsdlibc/gen/ctime.c:324-389 | fields in range that stand for the same second are the same |
| Offtime.Tm.YearOf | bsdlibc/gen/ctime.c:357-376 | the loops end in the year that contains the day |
| Offtime.Tm.Convert | bsdlibc/gen/ctime.c:324-389 | for every clock and offset the fields are in range, agree with each other, and stand for exactly clock plus offset |
| TaskQueue.TQueue.AddTask | kernel/muxx_taskqueues.c:5-22 | the linked queue is the old one with the new entry last |
| TaskQueue.TQueue.GetTask | kernel/muxx_taskqueues.c:24-41 | the first entry is taken and the rest stays in order |
| TaskQueue.TQueue.RemoveTask | kernel/muxx_taskqueues.c:43-72 | the first entry or an absent one is handled well; otherwise, and only then, what is left is no queue at all |
| TaskQueue.TQueue.NoQueue | kernel/muxx_taskqueues.c:57-66 | after an entry in the middle is removed no sequence fits the links, the tail and the count |
| TaskQueue.RemoveSecond | kernel/muxx_taskqueues.c:57-66 | two entries, the second removed: the head still leads to it, the tail is null and the count one |
| Schedule.NextKeeps | kernel/muxx_schedule.c:11-20 | each event keeps every process in exactly one of running, ready and suspended, and the countdown within the quantum |
| Schedule.Nearer | kernel/muxx_clock_svc.c:21-45 | no event delays a ready process, and each tick brings it nearer |
| Schedule.RunsInTime | kernel/muxx_clock_svc.c:21-45 | in any run the process in place k is dispatched within (k + 1) quantums of ticks |
| Schedule.RunsExactly | kernel/muxx_clock_svc.c:21-45 | while only ticks and new processes come, the running process goes on for exactly the ticks it has left, and then the one in place k runs for exactly one quantum, the k-th after that |
| Schedule.RunsOnlyThen | kernel/muxx_clock_svc.c:21-45 | and in that round it runs in no other quantum |
| Schedule.Alone | kernel/muxx_clock_svc.c:36-45 | with nobody ready the running process goes on for ever |
| Scheduler.Kernel.ClockHandler | kernel/muxx_clock_svc.c:21-45 | the handler on the linked queues is a tick of the machine |
| Scheduler.Kernel.YieldAndSchedule | kernel/muxx_yield.c:6-12 | the running process goes to the end of the ready queue and its head runs |
| Scheduler.Kernel.SvcYield | kernel/muxx_systrap_svc.c:115-124 | the service is a yield of the machine |
| Scheduler.Kernel.SvcSuspend | kernel/muxx_systrap_svc.c:88-113 | without the privilege or the same owner nothing changes; for the running process it is a suspension of the machine; the first ready process or an unknown one goes to the suspended; any other ready one leaves no ready queue |
| Scheduler.Kernel.Dispatcher | kernel/muxx_schedule.c:11-20 | the head of the ready queue runs |
| MemSvc.CarvedTiled | kernel/muxx_memsvc.c:42-58 | carving keeps the carved blocks and the free one a tiling of 0700 to 010000 |
| MemSvc.ExactlyOne | kernel/muxx_memsvc.c:140-143 | every physical block from 0700 to 010000 lies in exactly one carved block or in the free one |
| MemSvc.ScanEnds | kernel/muxx_memsvc.c:30-40 | the scan for free memory ends exactly if the free block is large enough or nothing was carved yet |
| MemSvc.NoTwentiethProcess | kernel/muxx_memsvc.c:30-40 | after 19 small processes, each with a full page and a stack, no memory is left and the scan for one more page never ends |
| MemSvc.NeverNull | kernel/muxx_memsvc.c:27-42 | a request of at most 8 KB is never answered with null |
| TaskMem.LayoutConfined | kernel/muxx_memsvc.c:173-347 | under the PDP-11's page length and growth rules pages 3 to 6 reach only the stretch carved for them, and no block twice |
| TaskMem.BlocksReached | kernel/muxx_memsvc.c:173-347 | the pages reach every block of the stretch, but for 15 blocks of a driver's buffer and the second page of a driver of medium size |
| TaskMem.ControlBlockReached | kernel/muxx_memsvc.c:277-285 | the user control block is in the process's own pages exactly if it is not a driver of medium size |
| TaskMem.Memory.constructor | kernel/muxx_memsvc.c:71-168 | the initial table is a tiling with nothing carved |
| TaskMem.Memory.FindFreeMMCB | kernel/muxx_memsvc.c:354-362 | the first entry not in use, or 0 when the table is full |
| TaskMem.Memory.GetBlock | kernel/muxx_memsvc.c:19-61 | the new block is the lower end of the free one; more than 128 blocks are refused |
| TaskMem.Memory.SetupTaskMem | kernel/muxx_memsvc.c:173-347 | a process of an accepted type gets a stretch of its own, with the registers its size and type ask for and its user control block at the end of its last full page, and just that much memory is used up; any other type is refused and nothing changes |
| TaskMem.NineteenSmall | kernel/muxx_memsvc.c:173-347 | nineteen set-ups of small processes from the initial table succeed and leave that state |
| TaskMem.Memory.Isolation | kernel/muxx_memsvc.c:173-347 | no two processes ever reach the same physical block through pages 3 to 6 |

## Left out

- Ndbm.Dbm.Store: ends only under its precondition that the pair fits a page with the pairs of equal hash; without it the code splits for ever, as StoreNeverEnds shows.
- Malloc.Arena.Malloc: addresses are unbounded, so the wrap-around of 16-bit sizes near 64 KB and the GRANULE test are not modelled, and sbrk never refuses.
- Ndbm.Dbm.Access: masks, block numbers and bit numbers are unbounded; in the code they are longs, so that after 32 levels of splits the mask stays all ones.
- Regex.Matcher.Compile: asks that the pattern contain no back-reference and no text cut off behind a backslash or a range's dash, and that its code fit expbuf and its classes a signed char; the message for too long a pattern is not modelled.
- Regex.Matcher.Advance: the stores into braslist and braelist, which only back-references read, are not modelled.
- Qsort.Qsort: records are moved as whole elements, not byte by byte.
- DnsComp.Message.Comp: names without backslashes and messages up to 16384 bytes; dn_find takes an escaped dot for a separator.  It asks that no failed call has left places of an unfinished name in the list.
- DnsExpand.Expand: asks for an output of at least one byte and a name that begins inside the message, as the code does not test either.
- Nbs.TextCipher.NbsEncrypt: the strings that the text cipher passes between its own routines are sequences.
- Stdio.Stream.FlsBuf: every write succeeds, the stream is open for writing only, and stdout on a terminal is not switched to line mode.
- Setmode.GetMode: command bits are sets of bit numbers; addcmd is modelled on values, by AddCmd and CopyCmd.
- Random.Generator.Setstate: asks for an array that initstate or setstate has left; with a spoilt first word the code prints a message and then uses its rear pointer, which may lie outside the array.
- Offtime.Tm.Convert: integers are unbounded, so the overflow of remainder plus offset for offsets near the largest long is not modelled; the time zone name is left out.
- Scheduler.Kernel.SvcSuspend: with no other process ready the code follows a null pointer when it suspends the running one, and a process that is suspended already would be queued twice; both are excluded.
- TaskQueue.TQueue.GetTask: asks for a queue that is not empty, for the same reason.
- TaskMem.Memory.GetBlock: asks that the free block be large enough and that an entry be free; otherwise the code loops or panics.
- TaskMem.Memory.SetupTaskMem: asks for enough free memory and entries; nothing is claimed about the I/O page, which the initial free block overlaps.
- Assembly sources, device drivers, console output, channels, mutexes, copying between address spaces and memory protection calls: hardware access or unfinished paths.
- setmode's string parser, reading and formatted stdio, resolver sockets, remote login, zone files and localtime: plumbing around the parts modelled.
- bsdlibc/gen/crypt.c: the same rounds as ruserpass.c with no way back.
