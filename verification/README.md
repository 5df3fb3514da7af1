# Verification models for a BBS news daemon, its file transfer and its ssh wire format

This project models, in Dafny, parts of a bulletin board system written in C and proves what
they are for.

* **The Message-ID index and the news history** (`innbbsd/dbz.c`, `innbbsd/his.c`,
  `innbbsd/dbztool.c`). An append-only hash table of file offsets with linear probing over
  several tables, biased, tagged and byte-order mapped slots, and a searcher that a failed fetch
  leaves for the next store. `DbzIndex` is the theory for any hash function and any sound slot
  coding, `Slots`, `ByteOrder` and `DbzConfig` show that the slot coding is sound, `DbzHash`,
  `DbzSize` and `DbzDir` treat the hash function, the table size and the text of the .dir file,
  `DbzCollisions` has keys on which hash() agrees, `DbzFormat` says where things are in the
  files, and the class `Dbz` is the open database with the static variables of the C file.
  `HistoryModel` is the history file on top of it and what is read back from it, `HistoryRuns`
  its runs, `HistoryIds` what they mean for the ids and dates themselves, `HistoryMaint` its
  expiry, and the class `History` the code that does all this.
* **The wildcard matcher** (`innbbsd/wildmat.c`): a three-valued backtracking matcher with ABORT
  pruning, proved equal to a declarative glob relation and linear in calls (`Wildmat`), and the
  language of its patterns as text (`WildmatText`).
* **ZMODEM** (`rzsz/zm.c`, `rzsz/crctab.c`, `rzsz/lsz.c`), the ZMODEM Inter Application File
  Transfer Protocol (Forsberg, 1988), sections 7.2 to 7.4: escape coding (`Zdle`), checks
  (`Crc`, `CrcTable`), subpackets (`Subpackets`), headers (`Headers`), what is accepted and what
  is refused (`FrameChecks`), what may come before a header (`HeaderScan`), whole frames
  (`Frames`), both ends of the line as classes (`ZmLine`), the sender that the receiver can
  reposition at any time (`Sender`), and that sender on that line, byte for byte (`Transfer`).
* **News flooding** (`innbbsd/inntobbs.c`, `innbbsd/innbbsd.c`): Path handling (section 2.1.6 of
  RFC 1036) in `Paths`, exclusion lists and feeds in `Feeds`, a network of sites in `Flood`, and
  who gets the article in it in `FloodReach`.
* **Multi-precision integers on a byte queue** (`smth_sshbbsd/bufaux.c`,
  `smth_sshbbsd/buffer.c`): `MpInt`.

Code that changes variables step by step is modelled by methods and classes that change them;
each is proved against a function of its inputs, and the theorems are about those functions.

## Where the code falls short of what one would expect

Each of these is kept in the model. The lemmas named give the exact condition, or an input at
which it happens, and mostly both.

* A fetch gives up when a read of the base file comes up short, which hides a stored key iff an
  earlier probe with the same tag does so (`DbzIndex.FetchExact`, and `DbzCollisions.LineHidden`
  for two lines of which it is true); in the history, where offsets increase, it never happens
  (`DbzIndex.FetchIsLookup`).
* Keys without a trailing NUL are compared as prefixes (`DbzIndex.BareKeysDistinguished`), so an
  id can be answered with the line of a longer one that begins with it
  (`HistoryModel.PrefixIsAnswered`, and `DbzCollisions.PrefixAnswered` for two of which it is
  true). That needs the longer one to be stored before the id itself; if it is, there are hash
  functions with which it happens (`HistoryModel.LocatedRightIff`). No Message-ID begins another
  (`HistoryModel.IdsArePrefixFree`).
* Tag masks that overlap, or tags without a marking bit, lose offsets (`Slots.LosslessIff`).
  `dbzfresh` makes such masks of a tag mask that reaches the top bit without a gap
  (`Slots.FreshTags`, `Slots.NoRoomAbove`).
* A .dir file whose case map is a blank cannot be read back (`DbzDir.ConfBackIff`). No
  configuration that getconf reads has one (`DbzDir.NeverBlank`), and dbzfresh makes none.
* An id of 255 characters or more gets a line in the history but no index entry, so storing it
  again adds another line. So does storing an id again whose line has exactly 1024 bytes and is
  the last one (`HistoryRuns.UniqueIff`, `HistoryRuns.RepeatedStore`, `HistoryRuns.TwoLines`).
* A history line longer than 1023 bytes cannot be read back: each further read goes to the start
  of the buffer while the terminating NUL moves on, past the end of the buffer unless the line is
  the last one and one byte too long (`HistoryFile.ReadLine`, `HistoryRuns.WreckedIff`).
* Expiry cuts lines longer than 4095 bytes (`HistoryMaint.PiecesAreLinesIff`,
  `HistoryMaint.LongLineIsCut`).
* `turbo_escape` leaves ^P alone even with `Zctlesc`, so a receiver with `Zctlesc` drops it
  (`Zdle.CompatibleIff`).
* The search for a header takes ZPAD with its parity bit set for the start of one, and CAN too
  after it, so that 0xAA 0x98 before a binary header loses it (`HeaderScan.ParityLoses`). Exactly
  what a header survives is a scan of the bytes before it (`HeaderScan.ComesBackIff`).
* ZEOF carries a position beyond the file if the receiver asked for one (`Sender.EofIsLength`,
  `Sender.BeyondTheEnd`), and a receiver that skips the file at its end makes `zsendfdata` return
  what an earlier answer left in a static variable, OK if there was none
  (`Sender.Lsz.Zsendfdata`, `Sender.SkippedAtEnd`).
* An article without a Path but with all the headers that are asked for is the end of the daemon,
  and so is one to be taken that has "@@" in its Subject, as long as no article has had a body;
  later, one without a body is looked at with the place of an earlier one's
  (`Flood.Client.Take`, `Flood.CrashWithoutPath`, `Flood.CrashWithoutBody`).
* `isexcluded` leaves a NUL in place of the comma after an entry that hits, which cuts the list
  for all later articles (`Feeds.RestoredIff`, `Feeds.ExclusionLost`) and, if the entry is empty,
  for the next word of the same one (`Feeds.SecondWordServed`), and cuts names of more than 1021
  characters (`Paths.CutIsExact`, `Flood.SkippedIsLoop`).
* A number of 65536 bits or more overflows its bit count (`MpInt.RoundTripIff`), and a string
  above 256k is written but not read (`MpInt.StringRoundTripIff`).

## Model

| member | source | states |
|---|---|---|
| DbzIndex.FetchExact | innbbsd/dbz.c:957-1029 | after any stores, fetch fails for a key never stored and gives the offset of its first line for any other, except exactly when an earlier probe under the same tag meets a base file that ends too soon |
| DbzCollisions.LineHidden | innbbsd/dbz.c:995-1023 | the exception occurs with hash() and every configuration that can store offset 5: two well-formed lines in the base file, stored in the other order, and the second stored is not found |
| DbzIndex.FetchIsLookup | innbbsd/dbz.c:997-1023 | stored in increasing order of offset, no early exit can hide a key: fetch is the map from each key to its first line |
| DbzIndex.AlwaysRightIff | innbbsd/dbz.c:997-1023 | it is that map for every hash function and slot coding iff the comparison tells the entries up to the key's own first one apart from it |
| DbzIndex.ScanFinds | innbbsd/dbz.c:997-1023 | otherwise the first entry that compares equal is what is found, if its key has the same hash |
| DbzIndex.NeverGivesUp | innbbsd/dbz.c:997-1005 | then no probe before a key's own reads short, since it holds an earlier line |
| DbzIndex.Chain | innbbsd/dbz.c:1090-1136 | chain invariant: every entry's slot still holds that entry after all later stores, and no other slot is in use |
| DbzIndex.EarlierProbe | innbbsd/dbz.c:1126-1135 | chain invariant: each probe before an entry's own holds an entry stored before it |
| DbzIndex.ProbePastEnd | innbbsd/dbz.c:1467-1519 | a search ends on any finite file: after MAXRUN probes per slot it is past the end |
| DbzIndex.FirstVacantResumed | innbbsd/dbz.c:1126-1131 | a search resumed anywhere before its end comes to the same vacant slot |
| DbzIndex.CompareLine | innbbsd/dbz.c:984-1018 | at a line, a key with its NUL compares equal iff it is that line's key, a bare key iff it is a prefix of it |
| DbzIndex.NulKeysDistinguished | innbbsd/dbz.c:989-993 | keys passed with their NUL are told apart exactly |
| DbzIndex.BareKeysDistinguished | innbbsd/dbz.c:1013-1016 | keys passed without it are told apart, as far as fetch needs it, iff no key stored before the key's own first entry begins with it |
| DbzFile.NextProbe | innbbsd/dbz.c:1467-1479 | search's step from place and table number gives probe k+1 of the closed form ((h+k) mod tsize) + (k div MAXRUN)*tsize |
| DbzFile.Dbz.Open | innbbsd/dbz.c:1349-1404 | opening a .pag file that holds an index, with or without a copy in core, gives that index |
| DbzFile.Dbz.Start | innbbsd/dbz.c:1427-1450 | a searcher left by a fetch of another key with the same hash is resumed where it stands, any other starts at probe 0 |
| DbzFile.Dbz.Step | innbbsd/dbz.c:1467-1481 | the searcher moves on to the next probe |
| DbzFile.Dbz.Search | innbbsd/dbz.c:1456-1534 | it passes over mismatching tags only and stops at the first slot that is vacant or may be the key |
| DbzFile.Dbz.Fetch | innbbsd/dbz.c:923-1029 | the answer is that of the scan of the index for the key cut to DBZMAXKEY; nothing stored changes |
| DbzFile.Dbz.FetchMapped | innbbsd/dbz.c:956-1029 | only a fetch that ran into a vacant slot leaves a searcher, and that stands where a fresh search would end |
| DbzFile.Dbz.FetchLoop | innbbsd/dbz.c:995-1028 | the loop computes the scan, early exits included |
| DbzFile.Dbz.FindVacant | innbbsd/dbz.c:1126-1130 | resumed or not, and even for another key of the same hash, the store's search ends at the first vacant slot with the key's own tag |
| DbzFile.Dbz.Store | innbbsd/dbz.c:1059-1136 | refused iff the key is too long or the offset uses the tag bit; otherwise the index is that of one more entry, and used[0] has counted it |
| DbzFile.Dbz.Set | innbbsd/dbz.c:1556-1614 | exactly the slot at the searcher's place changes, in core, in the file or in both |
| DbzFile.Dbz.Sync | innbbsd/dbz.c:874-902 | nothing if nothing has been stored; otherwise the .pag file alone holds the whole index and the .dir file begins with the configuration, which getconf reads back unless its case map is a blank |
| DbzFormat.ProbeTable | innbbsd/dbz.c:1467-1479 | probe k of a key is in table k/100 of the .pag file, at its hash plus k modulo the table size |
| Slots.SlotCoding | innbbsd/dbz.c:1515-1532 | a written slot never looks vacant; under any tag it is skipped or gives back its offset, and skipped only if tagged with another tag |
| Slots.LosslessIff | innbbsd/dbz.c:128-154 | slot coding loses nothing iff the masks are disjoint and tags have a marking bit, or that mark is every bit |
| Slots.LostTag | innbbsd/dbz.c:1540-1577 | for any other masks, a tag under which offset 0 is lost |
| Slots.FreshMasksAreGood | innbbsd/dbz.c:448-456 | a tag mask without the sign bit and the enable bits derived from it are good masks |
| Slots.FreshTags | innbbsd/dbz.c:439-457 | how dbzfresh splits a tag mask with an arithmetic shift, sign bit or not: the recorded mask is odd and shifted up again gives the one asked for; the masks in use are good iff some higher bit is left free, or the mask is 0 or 1 as an int |
| Slots.GoodMasksIff | innbbsd/dbz.c:448-456 | a tag mask and its enable bits are good masks iff the mask is 0 or does not reach the top bit without a gap |
| Slots.NoRoomAbove | innbbsd/dbz.c:448-456 | the mask -1 leaves no marking bit and gives bad masks |
| Slots.EnableUp | innbbsd/dbz.c:456 | shifting the enable bits of a mask gives the enable bits of the shifted mask |
| DbzFormat.TagSpares | innbbsd/dbz.c:1515-1532 | a tagged slot is skipped by every search for another tag and gives its offset to a search for its own |
| DbzFormat.DefaultTags | innbbsd/dbz.c:154 | with the default tags, hashes have the same tag iff the low seven bits of their quotients by the table size agree |
| ByteOrder.ByteMapInPlace | innbbsd/dbz.c:1658-1676 | the loop moves every byte to its place in the other order |
| ByteOrder.MovedBack | innbbsd/dbz.c:1658-1676 | bytemap with its maps swapped undoes bytemap, whatever the unions held |
| ByteOrder.MovedZeros | innbbsd/dbz.c:1658-1676 | only zeros map to zeros: byte order never makes a slot vacant |
| DbzConfig.Config.MapRoundTrip | innbbsd/dbz.c:1654-1676 | MAPIN undoes MAPOUT for every pair of byte orders |
| DbzFormat.BytesOfSlot | innbbsd/dbz.c:1658-1676 | each byte of a slot is where the byte map of the file puts it |
| DbzConfig.Config.OffsetCoding | innbbsd/dbz.c:1515-1577 | through bias, tag and byte order, a stored offset comes back under its tag, and under another tag comes back or is skipped |
| DbzConfig.Config.SchemeSound | innbbsd/dbz.c:1515-1577 | every valid configuration meets what the index theory asks of a slot coding |
| DbzConfig.Config.UntaggedOkay | innbbsd/dbz.c:1540-1551 | without tags every file offset is acceptable |
| DbzHash.Hash | innbbsd/dbz.c:1728-1741 | hash() with the table that crcinit fills is the CRC of the key and never gets a sign bit |
| DbzHash.CrcTableIsGood | innbbsd/dbz.c:1709-1723 | the entries of CrcTable have 31 bits, the high seven of which tell them apart |
| DbzHash.CrcEntry | innbbsd/dbz.c:1717-1721 | the inner loop of crcinit comes to the entry that the theory uses |
| DbzHash.CrcInit | innbbsd/dbz.c:1709-1723 | fills the table of 128 entries that hash() reads |
| DbzHash.SingleBits | innbbsd/dbz.c:1705-1741 | the keys of one character with one bit set hash to the polynomial and its shifts |
| DbzHash.OneCharacter | innbbsd/dbz.c:1728-1741 | two keys that differ in the low seven bits of one character never hash alike |
| DbzCollisions.HighUnseen | innbbsd/dbz.c:1728-1741 | a leading character 0x80 does not show in the hash |
| DbzSize.LargerPrime | innbbsd/dbz.c:511-512 | there is a prime above any number, so the search for one ends |
| DbzSize.NoDivisorLeft | innbbsd/dbz.c:532-550 | once the quick primes and the odd numbers below the doubled bound have failed, no divisor is left |
| DbzSize.ApproximateRoot | innbbsd/dbz.c:540-543 | the doubled bound falls at most one short of the square root |
| DbzSize.IsPrime | innbbsd/dbz.c:523-551 | true exactly for 1 and the primes above 37 |
| DbzSize.Size | innbbsd/dbz.c:497-516 | for contents >= 2 the least prime above 37 that is at least 3*(contents/2), so 3*contents <= 2*size+1 |
| DbzDir.ConfBackIff | innbbsd/dbz.c:1193-1343 | getconf reads back what putconf wrote, whatever stands behind it in the file, iff the case map is not a blank |
| DbzDir.NeverBlank | innbbsd/dbz.c:1220-1235 | whatever the file holds, no configuration that getconf reads has a blank for its case map |
| DbzFormat.TwoLines | innbbsd/dbz.c:1327-1336 | the .dir file is two lines of numbers, the first behind "dbz" and with the case map among them |
| DbzDir.NumberBack | innbbsd/dbz.c:1274-1312 | getno reads back any long and stops right behind it |
| DbzDir.LongNumber | innbbsd/dbz.c:1274-1312 | of a number of 50 or more characters the first 49 are what is read |
| DbzDir.DirFile.Putconf | innbbsd/dbz.c:1314-1343 | writes the two lines of the .dir file |
| DbzDir.DirFile.Getconf | innbbsd/dbz.c:1193-1272 | reads a configuration, or fails at the end if anything on the way was wrong; an empty file stands for the defaults |
| DbzDir.DirFile.Getno | innbbsd/dbz.c:1274-1312 | one number with its error flag |
| HistoryModel.HistoryDistinguishes | innbbsd/his.c:446-462 | comparing an id at the indexed lines up to its own first one succeeds exactly for that iff no longer indexed id before it begins with it |
| HistoryModel.HistoryFetch | innbbsd/his.c:306-312 | fetching such an id gives the offset of its first line if it is indexed, and fails otherwise |
| HistoryModel.LocatedRightIff | innbbsd/his.c:306-312 | fetching an id is right with every hash function and slot coding iff no longer indexed id before its own first line, or anywhere if it has none, begins with it |
| HistoryModel.PrefixIsAnswered | innbbsd/his.c:306-353 | an id that begins the only one stored, with the same hash, is answered with that line although it was never stored |
| DbzCollisions.PrefixAnswered | innbbsd/his.c:306-353 | this happens with hash() and every configuration: the id 0x80 is answered with the line of 0x80 0x80 |
| HistoryModel.IdsArePrefixFree | innbbsd/his.c:258-290 | no Message-ID begins another |
| HistoryModel.LineReadOf | innbbsd/his.c:328-348 | reading at a line gives its text if it has at most 1023 bytes; the last line of the file is not found if it has 1024; any other overruns the buffer |
| HistoryModel.AnswerByLength | innbbsd/his.c:296-353 | the same for the answer for an indexed id, by its first line |
| HistoryRuns.RunRemembers | innbbsd/dbztool.c:55-67 | after any run, the ids with a line are those stored, the first line of each with the text first stored |
| HistoryRuns.RememberedStays | innbbsd/dbztool.c:55-67 | an id that DBfetch finds after k requests is found with the same text after all later ones |
| HistoryRuns.AnswersRemember | innbbsd/dbztool.c:18-67 | after any run, DBfetch's answer for every id: the date and paths of its first storing iff it fits dbz and the line fits one read; when it is not found, and when the buffer is overrun |
| HistoryRuns.MessageIdsAnswered | innbbsd/dbztool.c:55-67 | in runs with Message-IDs no longer indexed id before the line of one that is asked for begins with it |
| HistoryRuns.MessageIdsUnmistaken | innbbsd/dbztool.c:55-67 | so all along such a run the index leads to an id's own line |
| HistoryRuns.WreckedIff | innbbsd/dbztool.c:18-34 | a request overruns the buffer iff its id is indexed with a first line above 1024 bytes, or of 1024 and not the last |
| HistoryRuns.RunSurvives | innbbsd/dbztool.c:55-67 | runs that store no line above 1023 bytes never do |
| HistoryRuns.UniqueIff | innbbsd/dbztool.c:55-67 | a run leaves two lines of one id iff it stores an id again that does not fit dbz or whose first line has more than 1023 bytes |
| HistoryRuns.TwoLines | innbbsd/dbztool.c:55-67 | a three-byte id with a line of 1024 bytes, stored twice from an empty history, has two lines |
| HistoryRuns.StoredTwice | innbbsd/dbztool.c:55-67 | so has every new id that fits dbz and comes with a line of 1024 bytes, in every history |
| HistoryRuns.StoreThenFetch | innbbsd/dbztool.c:18-67 | what is stored for an id not found is found afterwards iff the id fits dbz, the line has at most 1023 bytes and the id had no line |
| HistoryRuns.RepeatedStore | innbbsd/dbztool.c:55-67 | storing an id again changes nothing iff the first request does not come out as missing, that is finds the id or overruns the buffer, or makes it findable |
| HistoryIds.TakenForOneIff | innbbsd/dbztool.c:25-45 | nothing that the daemon answers or stores tells two ids apart iff they agree in their first 510 bytes |
| HistoryIds.LineStored | innbbsd/dbztool.c:36-67 | storing an id that is not found adds the line of its first 510 bytes, the decimal date and the paths, with tabs between and a newline |
| HistoryIds.AnsweredFromFirst | innbbsd/dbztool.c:18-67 | after any run, DBfetch answers for every id from the request that first stored it: date and paths if the id has fewer than 255 bytes and the line at most 1023, and exactly when it is missing or overruns the buffer |
| HistoryIds.WholeIds | innbbsd/dbztool.c:18-67 | if no id has more than 510 bytes, that is the request that first stored this very id |
| HistoryIds.OthersAreMissing | innbbsd/dbztool.c:18-67 | storing one id of at most 510 bytes leaves a different one missing |
| DateText.DateReadBack | innbbsd/his.c:457-458 | the date printed for a line is the one that HISmaint reads |
| HistoryIds.DecimalIs | innbbsd/his.c:457-458 | a date is printed in decimal digits that stand for it, without leading zeros |
| HistoryFile.ReadLine | innbbsd/his.c:328-348 | the loop over a buffer of 1025 bytes, with its NUL at the count of all bytes read, gives the answer of LineRead, and leaves the buffer exactly when that count passes 1024 |
| HistoryFile.Strchr | innbbsd/his.c:337 | the first place of a byte in the string that the buffer holds |
| HistoryFile.History.HISfilesfor | innbbsd/his.c:296-353 | the answer at the offset that the index gives; that of the id's own first line if no longer one before it begins with it |
| HistoryFile.History.HISwrite | innbbsd/his.c:446-482 | one line is appended, and indexed iff the id fits dbz |
| HistoryFile.History.MyHISwrite | innbbsd/his.c:402-440 | a line is appended unless the index has an offset for its id |
| HistoryFile.History.DBfetch | innbbsd/dbztool.c:18-34 | HISfilesfor of the id, or of its first 510 bytes if it is longer, with a buffer of 1025 bytes |
| HistoryFile.History.StoreDB | innbbsd/dbztool.c:36-67 | appends a line iff DBfetch finds none, fails iff it appends and the id does not fit dbz, and is one step of the run if no longer id before the first line of this one begins with it |
| HistoryFile.History.Serve | innbbsd/dbztool.c:18-67 | one request, fetching or storing, is one step of the run |
| HistoryFile.History.ServeAll | innbbsd/dbztool.c:18-67 | a whole sequence of requests, served on an empty history, ends with the history of the run, or with the overrun in which the run ends |
| HistoryFile.UntaggedIsPlain | innbbsd/his.c:38-50 | the databases that makedbz makes, without tags, take every offset |
| HistoryMaint.Fgets | innbbsd/his.c:148-149 | a line, the rest of the text or as much as the buffer takes |
| HistoryMaint.PiecesAreLinesIff | innbbsd/his.c:148-149 | what fgets reads are the lines of the history iff none has more than 4095 bytes |
| HistoryMaint.LongLineIsCut | innbbsd/his.c:148-164 | of a longer line only the first 4095 bytes are copied, without a newline, if the rest holds no tab |
| HistoryMaint.RebuiltByIs | innbbsd/his.c:148-164 | rebuilding by the answers of the index is rebuilding by exact ids, as long as no key begins a longer one copied before it |
| HistoryMaint.WholeLinesRebuilt | innbbsd/his.c:148-164 | a history of whole lines within the buffer, with no id that begins a longer one before it, is rebuilt from its lines by exact ids |
| HistoryMaint.RebuiltIsSelected | innbbsd/his.c:148-166 | the rebuilt history is, in order, exactly the tabbed lines read that pass the expiry test, one per id that fits dbz |
| HistoryMaint.KnownIffPassed | innbbsd/his.c:148-166 | the new index knows an id iff a passing line has it |
| HistoryIds.KeptIff | innbbsd/his.c:128-160 | a line printed at a date is kept iff date + 99600*days >= now, and makes a history due iff date + 172800*days < now |
| HistoryMaint.FirstLineExpired | innbbsd/his.c:128-148 | the first line need not be examined again: a history that is due has an expired one |
| HistoryFile.History.CopyLines | innbbsd/his.c:148-166 | the loop rebuilds from every piece that fgets reads, by the answers of the new index |
| HistoryFile.History.IsDue | innbbsd/his.c:128-135 | due iff the first piece, or what the buffer held if there is none, is older than twice the expiry |
| HistoryFile.History.HISmaint | innbbsd/his.c:115-178 | the history becomes the one rebuilt from all pieces iff it is due, with an index that agrees with it |
| Wildmat.Wildmat | innbbsd/wildmat.c:119-129 | true iff the pattern's tokens match the text, for which `WildmatText` says what that means for pattern text; with at most text length plus one entries |
| Wildmat.DoMatch | innbbsd/wildmat.c:53-114 | TRUE and FALSE decide this text, ABORT means that no suffix of it matches; FALSE only from an instance that meets no star |
| Wildmat.StarLoop | innbbsd/wildmat.c:77-87 | a star never gives FALSE, and the starting positions of its inner calls account for every call |
| Wildmat.MatchClass | innbbsd/wildmat.c:88-104 | a class accepts a character iff negation differs from membership in its items |
| Wildmat.ScanClass | innbbsd/wildmat.c:96-102 | the scan finds the character iff an item of the class holds it |
| Wildmat.MatchesIffCut | innbbsd/wildmat.c:4-16 | the token-by-token relation is the declarative one: the text cuts into one piece per token |
| Wildmat.AbortCarries | innbbsd/wildmat.c:17-36 | the pruning argument: what no suffix matches further on, no suffix matches from the start |
| WildmatText.WrittenMatches | innbbsd/wildmat.c:53-114 | a pattern written from letters, backslashed characters, ?, * and classes, character code by character code, matches exactly the texts that cut into what its parts stand for |
| WildmatText.ClosedIff | innbbsd/wildmat.c:53-114 | there are no other patterns, but for those with an open class and a backslash at the very end |
| WildmatText.LooseMatchesNothing | innbbsd/wildmat.c:67-73 | a pattern with a backslash at its very end matches nothing |
| WildmatText.QuestionMarks | innbbsd/wildmat.c:74-76 | n question marks match exactly the texts of length n |
| WildmatText.PlainText | innbbsd/wildmat.c:67-73 | text without special characters matches itself alone |
| WildmatText.QuotedText | innbbsd/wildmat.c:67-73 | any text, with a backslash before each character, matches itself alone |
| WildmatText.StarBetween | innbbsd/wildmat.c:77-87 | between plain texts an asterisk leaves only the beginning and the end fixed |
| WildmatText.RangeOf | innbbsd/wildmat.c:88-104 | "[lo-hi]" matches one character from lo to hi, or lo itself |
| WildmatText.OneOf | innbbsd/wildmat.c:88-104 | "[...]" matches one of the characters listed |
| WildmatText.NoneOf | innbbsd/wildmat.c:88-104 | "[^...]" matches one character that is not listed |
| Zdle.CompatibleIff | rzsz/zm.c:179-250 | every byte after every other reads back as itself iff the receiver's Zctlesc implies the sender's without turbo_escape |
| Zdle.ReadBackByte | rzsz/zm.c:179-279 | what is sent for a byte reads back as it through any noise |
| Zdle.EncodeIsClean | rzsz/zm.c:256-279 | no flow control character is ever sent raw for data |
| Zdle.EncodeConcat | rzsz/zm.c:281-326 | encoding composes, with the last byte sent carried across the seam |
| Zdle.NoReturnAfterAt | rzsz/zm.c:256-279 | without turbo_escape, a carriage return never goes out right behind an '@', whatever was sent before, parity aside |
| Zdle.ReturnIsRaw | rzsz/zm.c:256-279 | with neither setting it goes out raw everywhere else |
| Zdle.ReturnEscaped | rzsz/zm.c:915-923 | Zctlesc escapes every carriage return, turbo_escape alone none |
| Zdle.EscapedIff | rzsz/zm.c:894-935 | which other bytes are escaped, by their codes and the two settings |
| Zdle.RawRead | rzsz/zm.c:179-188 | what a byte alone reads as |
| Zdle.EscapeRead | rzsz/zm.c:191-250 | what CAN and another byte read as: a frame end, one of the rubouts, the byte with its sixth bit turned over, or an error |
| Zdle.FiveCans | rzsz/zm.c:191-250 | five CANs in a row cancel |
| Zdle.FourCans | rzsz/zm.c:191-250 | one to four before a frame end are one ZDLE |
| Crc.Residue16 | rzsz/crctab.c:53 | with any table, checking data and trailer leaves 0 |
| Crc.Residue32 | rzsz/crctab.c:157-169 | with cr3tab it leaves 0xDEBB20E3 from every state |
| Crc.OnlyTrailer16 | rzsz/crctab.c:53 | no other two bytes leave 0, with any table |
| Crc.OnlyTrailer32 | rzsz/crctab.c:157-169 | no other four bytes leave that residue |
| FrameChecks.DigitsCheck | rzsz/crctab.c:157-169 | the check of the digits 1 to 9 is the published 0xCBF43926 |
| CrcTable.Cr3Listed | rzsz/crctab.c:92-153 | all 256 listed entries are those of eight shift and xor steps |
| Subpackets.RoundTrip | rzsz/zm.c:549-655 | a subpacket that fits the buffer comes back with its frame end, whatever was sent before and wherever flow control got in |
| Subpackets.FlowTransparent | rzsz/zm.c:191-250 | XON and XOFF put in anywhere, with or without the high bit and also after ZDLE, change nothing that is received |
| Subpackets.SentIsClean | rzsz/zm.c:432-489 | a sent subpacket contains no flow control character |
| Subpackets.Fcs16Sound | rzsz/zm.c:567-588 | the 16-bit check always accepts its own trailer |
| Subpackets.Fcs32Sound | rzsz/zm.c:620-645 | so does the 32-bit one |
| FrameChecks.ReceivedIff16 | rzsz/zm.c:550-601 | data, a frame end and two bytes: accepted iff the two bytes are their check, by the table and from 0, and an error otherwise |
| FrameChecks.ReceivedIff32 | rzsz/zm.c:603-655 | the same with four bytes, from all ones |
| FrameChecks.ReceivedMeans16 | rzsz/zm.c:550-601 | on any line whatever, what is accepted was read with the check of everything read of it behind it |
| FrameChecks.ReceivedMeans32 | rzsz/zm.c:603-655 | the same for the 32-bit check |
| FrameChecks.CheckDamaged16 | rzsz/zm.c:582-584 | a good packet with one byte of its check changed is an error |
| FrameChecks.CheckDamaged32 | rzsz/zm.c:637-639 | the same for the 32-bit check |
| FrameChecks.DataDamaged32 | rzsz/zm.c:603-655 | so is one with any one byte of its data, or the frame end, changed |
| ZmLine.ZSender.ZsendlineInit | rzsz/zm.c:894-935 | the table holds the rule of every character for the current settings |
| ZmLine.ZSender.Zsendline | rzsz/zm.c:256-279 | one byte, escaped by its rule and the byte before it; which bytes are escaped is what `Zdle.EscapedIff` and `Zdle.ReturnIsRaw` say |
| ZmLine.ZSender.ZsendlineS | rzsz/zm.c:281-326 | the bulk escaper writes the bytes and leaves the lastsent of zsendline on each byte |
| ZmLine.ZSender.Zsdata | rzsz/zm.c:432-455 | writes the 16-bit subpacket, and XON after ZCRCW |
| ZmLine.ZSender.Zsda32 | rzsz/zm.c:457-489 | writes the 32-bit subpacket, also for no data |
| ZmLine.ZSender.Zsbhdr | rzsz/zm.c:329-361 | writes the binary header with either check, behind the nulls of a ZDATA header |
| ZmLine.ZSender.Zsbh32 | rzsz/zm.c:364-384 | writes the rest of a 32-bit header |
| ZmLine.ZSender.Zshhdr | rzsz/zm.c:387-426 | writes the hex header and its line end without touching lastsent |
| ZmLine.ZReceiver.Zdlread | rzsz/zm.c:179-188 | reads one byte or code |
| ZmLine.ZReceiver.Zdlread2 | rzsz/zm.c:191-250 | what follows a ZDLE, up to CAN*5 |
| ZmLine.ZReceiver.Crcfoo | rzsz/zm.c:567-596 | the codes and the check bytes, a code among them starting over |
| ZmLine.ZReceiver.Zrdata | rzsz/zm.c:549-655 | the received bytes stand in the buffer, nothing beyond one more byte than its length is written; what it accepts is what `FrameChecks.ReceivedIff16` and `ReceivedIff32` say |
| ZmLine.ZReceiver.Noxrd7 | rzsz/zm.c:119-140 | seven bits without flow control |
| ZmLine.ZReceiver.Zgethex | rzsz/zm.c:142-173 | two hex digits or an error |
| ZmLine.ZReceiver.ReadFields | rzsz/zm.c:780-882 | type, position and check of a header, the position into hdr |
| ZmLine.ZReceiver.Zrhhdr | rzsz/zm.c:844-882 | the same and the line end of a hex header |
| ZmLine.ZReceiver.Zgethdr | rzsz/zm.c:667-777 | goto by goto, the hunt for a header with its two counters |
| Headers.PositionBack | rzsz/zm.c:938-960 | rclhdr recovers what stohdr stored modulo 2^32 |
| Headers.LowByteFirst | rzsz/zm.c:938-948 | stohdr puts the low byte first |
| Headers.LowByteRead | rzsz/zm.c:950-960 | and rclhdr reads it so |
| Headers.HexHeaderIs | rzsz/zm.c:387-426 | a hex header byte by byte |
| Headers.BinaryHeaderIs | rzsz/zm.c:329-384 | a binary header with either check, byte by byte before the escaping |
| FrameChecks.HeaderReadIff | rzsz/zm.c:780-882 | five bytes and as many as the check has are taken for a header iff these are the check of those, and are an error otherwise |
| FrameChecks.HeaderReadMeans | rzsz/zm.c:780-882 | on any line whatever, a header that is taken was read with its own check behind it |
| HeaderScan.HeaderBack | rzsz/zm.c:329-426 | in every form type and position come back, 7 bits of the type in hex, after anything that the hunt comes through and through flow control; what follows a binary header is left to be read |
| HeaderScan.HuntStep | rzsz/zm.c:680-757 | what each byte does at each label of the hunt: on to another label, one of max_garbage gone, into a header, or the end |
| HeaderScan.PastGarbage | rzsz/zm.c:680-757 | within max_garbage the hunt comes through any bytes to where their scan ends |
| HeaderScan.ComesBackIff | rzsz/zm.c:667-777 | for any bytes sent before it: every header of a form comes back iff their scan meets no indicator, no end and not all of max_garbage, and for a binary header does not end behind ZPAD ZDLE |
| HeaderScan.ParityLoses | rzsz/zm.c:715-757 | 0xAA 0x98 before a binary ZRQINIT header of zeros loses it, whatever max_garbage is |
| HeaderScan.PlainIsClear | rzsz/zm.c:680-730 | garbage without CAN of either parity is always come through, at a cost of at most its length |
| HeaderScan.LostHeader | rzsz/zm.c:733-757 | after bytes taken for a header, what comes back has a type that they determine |
| HeaderScan.TooMuchGarbage | rzsz/zm.c:709-714 | a scan that costs max_garbage, 0 counting as 2^32, ends in an error |
| Headers.HuntCancelled | rzsz/zm.c:680-714 | five CANs in a row end the search |
| Headers.HexLeaves | rzsz/zm.c:866-877 | after an undisturbed hex header the line end is gone and only its XON, if any, is left before what follows |
| Headers.HeaderIsClean | rzsz/zm.c:387-426 | only the XON at the end of a header can be taken for flow control |
| Frames.PiecesBack | rzsz/zm.c:432-655 | subpackets in a row come back as they were cut |
| Frames.FrameBack | rzsz/zm.c:667-777 | a ZDATA header and its subpackets come back together |
| Sender.Safety | rzsz/lsz.c:1109-1218 | whatever is damaged and answered, a receiver that appends only at matching offsets has a beginning of the file, and all of it once it accepts ZEOF |
| Sender.Delivery | rzsz/lsz.c:1048-1218 | if nothing after its last request is damaged, the ZEOF it gets is accepted and the file complete |
| Sender.Contiguous | rzsz/lsz.c:1109-1142 | the data sent since the last request is the file from there up to bytes_sent, without gap or repetition |
| Sender.AllSent | rzsz/lsz.c:1193-1200 | by the time of ZEOF everything from the position last asked for has been sent |
| Sender.EofIsLength | rzsz/lsz.c:1198-1200 | ZEOF carries the file's length iff the last position asked for is inside the file |
| Sender.BeyondTheEnd | rzsz/lsz.c:1195-1200 | a receiver that asks for a position beyond the file gets it back in ZEOF, in a proper transcript |
| Sender.AnswerAtOnce | rzsz/lsz.c:1129-1137 | a subpacket that asks for an answer comes right after a ZDATA header at the position last asked for |
| Sender.EndsIff | rzsz/lsz.c:1000-1142 | how a subpacket ends: ZCRCE with the last of the file; before that ZCRCW iff it comes right after the ZDATA header that answers a ZRPOS other than the first, and ZCRCG otherwise |
| Sender.Succession | rzsz/lsz.c:1109-1217 | what may follow each event and each reply; an acknowledgment counts iff it is for all that has been sent |
| Sender.Advances | rzsz/lsz.c:1141-1142 | positions only grow until the receiver asks for another |
| Sender.Lsz.StartAt | rzsz/lsz.c:998-1015 | from the first request on, the whole transcript is proper, no reply is passed over and the value returned is the one for it; its subpackets end as `Sender.EndsIff` says |
| Sender.Lsz.Zsendfdata | rzsz/lsz.c:1020-1218 | so for every run of replies: each ZDATA carries bytes_sent, the subpackets after it the bytes of the file from there, ZEOF the end; after ZSKIP at the end of the file it returns the static c as the transcript left it, ZSKIP itself before that, and OK iff ZRINIT came or that c is OK |
| Sender.SkippedAtEnd | rzsz/lsz.c:1201-1212 | a receiver that skips the file at its end, in a transfer without an answer before: the value returned is OK |
| Sender.Lsz.SendFrame | rzsz/lsz.c:1112-1193 | the loop ends at the end of the file or at ZCRCW |
| Sender.Lsz.SendBlock | rzsz/lsz.c:1112-1142 | a block from the file, its frame end by position |
| Sender.Lsz.SendEof | rzsz/lsz.c:1198-1217 | ZEOF again for every acknowledgment; its answers leave the static c alone |
| Sender.Lsz.Getinsync | rzsz/lsz.c:1325-1382 | what it returns and moves for every reply: RPOS repositions, ACK only at the position sent, RINIT and SKIP exactly for those replies |
| Sender.Lsz.Zfilbuf | rzsz/lsz.c:712-730 | the next bytes of the file, and eof_seen iff they reach its end |
| Transfer.FileArrives | rzsz/lsz.c:1020-1218 | the bytes that the sender writes from the last request on to ZEOF, with flow control put in anywhere, but before the first ZPAD of no header as much as max_garbage, and any bytes behind: a receiver that reads them with zgethdr and zrdata has the whole file and takes ZEOF for its end |
| Transfer.Follows | rzsz/lsz.c:1109-1218 | all along that line the receiver has exactly what the sender has sent, and is inside a frame when the sender is |
| Transfer.Put | rzsz/lsz.c:1109-1200 | zsbhdr, zsdata and zsda32 write bytes that stand for the event of the transcript |
| Transfer.TypesAre | rzsz/lsz.c:1109-1200 | ZDATA goes out with type 10 and behind nulls, ZEOF with 11, ZNAK with 6 |
| Transfer.HeaderRead | rzsz/zm.c:667-777 | zgethdr reads a binary header behind its nulls and flow control that together stay below max_garbage, and leaves all that follows |
| Transfer.PacketRead | rzsz/zm.c:550-655 | zrdata and zrdat32 read a subpacket and the XON after it, and leave all that follows |
| Paths.ComponentIff | innbbsd/inntobbs.c:65-69 | the strstr test finds a name without '!' iff it is a component of the path |
| Paths.TestIsExact | innbbsd/innbbsd.c:855-870 | that holds on all paths iff the name has no '!' |
| Paths.CutIsExact | innbbsd/inntobbs.c:65-69 | a node is only passed over for being on the path iff its name fits path2 |
| Paths.Prefixed | innbbsd/inntobbs.c:140-145 | a site's name in front makes one more component |
| Feeds.IsExcluded | innbbsd/inntobbs.c:60-88 | true iff the node or an entry of its list is on the path; the list changes in at most one place, at the end of an entry that hit |
| Feeds.TestEntry | innbbsd/inntobbs.c:74-84 | the comma that gives way to a NUL comes back only if the entry is not found |
| Feeds.SpansCut | innbbsd/inntobbs.c:74-84 | what is left of a list has its entries up to the one that hit, that one too unless it is empty |
| Feeds.RestoredIff | innbbsd/inntobbs.c:74-84 | the list comes out unchanged iff nothing hits, or only its last entry with no comma after |
| Feeds.ExclusionLost | innbbsd/inntobbs.c:77-78 | an article through one excluded site undoes the exclusion of the next |
| Feeds.SameAnswerIff | innbbsd/inntobbs.c:60-88 | asked again about the same article the answer is the same unless the entry that hit was empty |
| Feeds.FeedsWho | innbbsd/inntobbs.c:189-246 | how many lines each node gets: none unless it is open, none if its name is on the path, otherwise one per word that names it as long as no exclusion hits; an empty exclusion that hits keeps out only the first |
| Feeds.SecondWordServed | innbbsd/inntobbs.c:189-246 | a node named by two words, with an empty exclusion and an empty name on the path, gets a line for the second word |
| Feeds.LinesAre | innbbsd/inntobbs.c:140-145 | at most one line per word, each with this site's name in front of the path |
| Feeds.Feeder.Feedfplog | innbbsd/inntobbs.c:90-154 | the word loop writes those lines and restores nf->path |
| Flood.Client.Offer | innbbsd/innbbsd.c:819-846 | the answer to ihave, its counters and the mode |
| Flood.Client.Take | innbbsd/innbbsd.c:847-924 | control messages go by without a look at Path; any other complete article is taken iff this site is not on its path, and a loop, be it a notice, is answered like a taken one; the daemon crashes iff a complete article has no Path, or one to be taken is marked as a notice without ever a body having been seen |
| Flood.Client.ReadBody | innbbsd/inntobbs.c:445-451 | BODY is the text after the first empty line, or still points where an earlier article had it, or is NULL |
| Flood.CrashWithoutPath | innbbsd/innbbsd.c:850-855 | an article with the five headers that are asked for, but no Path |
| Flood.CrashWithoutBody | innbbsd/innbbsd.c:873 | a first article with "@@" in its Subject and no empty line; once a body has been seen it does not crash |
| Flood.FloodHalts | innbbsd/inntobbs.c:90-154 | on every graph of sites, with or without duplicate checks, no run is longer than the weight it starts with |
| Flood.StepShrinks | innbbsd/innbbsd.c:868-875 | every step, loops and duplicates dropped or the article forwarded, lowers that weight |
| Flood.RunIsClean | innbbsd/innbbsd.c:868-875 | along every run accepted articles have a path of distinct names without the receiver's |
| Flood.StepKeepsTraced | innbbsd/inntobbs.c:140-145 | every path is one of the origin's or names first a site that accepted the article with the rest of it |
| Flood.RunIsTraced | innbbsd/inntobbs.c:140-145 | along every run each path in flight or accepted leads back to the origin through acceptances |
| FloodReach.FedIsSent | innbbsd/inntobbs.c:140-145 | a site that accepts the article sends it on, with its name in front of the path, to every open node that its words name and neither the node's name nor its exclusions keep out |
| FloodReach.FedHasIt | innbbsd/inntobbs.c:90-154 | in a network that loses nothing, once the article has stopped moving, every such node that is a site has it, unless its name was on the path from the beginning |
| Flood.SkippedIsLoop | innbbsd/inntobbs.c:65-69 | a node passed over for its own name would have dropped the article as a loop, iff its name fits path2 |
| MpInt.Pack | smth_sshbbsd/bufaux.c:70-86 | in place, the hex digits become the number's bytes, none overwritten before it is read, and oi is (bits+7)/8 |
| MpInt.RoundTripIff | smth_sshbbsd/bufaux.c:58-129 | a number is read back with exactly its bytes consumed iff it has fewer than 65536 bits |
| MpInt.WireIs | smth_sshbbsd/bufaux.c:58-97 | what is written: the bit count in two bytes and the number in (bits+7)/8, both high byte first |
| MpInt.InOrder | smth_sshbbsd/bufaux.c:58-129 | numbers written one after the other come out in that order |
| MpInt.StringRoundTripIff | smth_sshbbsd/bufaux.c:151-185 | a string is read back iff it is no longer than 256k |
| MpInt.FourAre | smth_sshbbsd/bufaux.c:179-185 | a length is written high byte first |
| MpInt.TextIsNumber | smth_sshbbsd/bufaux.c:113-123 | the hex text built from bytes is read as the number they stand for |
| MpInt.ByteCount | smth_sshbbsd/bufaux.c:86 | the bit count determines the number of bytes |
| MpInt.BitsAre | smth_sshbbsd/bufaux.c:62-86 | the bit count is that of the binary number |
| MpInt.Buffer.Append | smth_sshbbsd/buffer.h:64-65 | the queue gets the bytes at its end, wherever the array has to move or grow |
| MpInt.Buffer.AppendSpace | smth_sshbbsd/buffer.h:67-70 | room without change of contents; the retries end |
| MpInt.Buffer.Get | smth_sshbbsd/buffer.h:75-76 | the bytes at the front are taken, or none if there are too few |
| MpInt.Buffer.PutMpInt | smth_sshbbsd/bufaux.c:58-97 | appends bit count and bytes |
| MpInt.Buffer.GetMpInt | smth_sshbbsd/bufaux.c:99-129 | reads what the wire format says, or fails for lack of bytes |
| MpInt.Buffer.GetInt | smth_sshbbsd/bufaux.c:131-139 | four bytes, high byte first |
| MpInt.Buffer.PutString | smth_sshbbsd/bufaux.c:179-185 | length and bytes |
| MpInt.Buffer.GetString | smth_sshbbsd/bufaux.c:151-177 | refuses a length above 256k |

## Left out

- I/O errors, `sp->aborted`, the cached `pagpos`, stdio buffering, file locks, mmap, signals and logging are not modelled; the base file, the line and the replies are sequences given to the methods.
- DbzFile: `olddbz` databases, `dbzagain`, `dbzcancel` and the moves of the usage history; an open database has the slot coding and what is written to the .dir file as two separate parameters, and case maps other than the '0' that `makedbz` uses leave keys unchanged here.
- DbzDir.DirFile.Getconf: the defaults for an empty file are those of a build without OLDBNEWS, BNEWS and NOTAGS, and the look into the .pag file for an `olddbz` database is left out; numbers too large for a long are read as they stand, where atol leaves its result open.
- DbzIndex.FetchExact: holds for any hash function; that `hash()` is one with sums that fit a nat is `DbzHash.Hash`, and the two are connected only by that parameter.
- Slots: offsets are 64-bit words, as `long` is on the machines that matter; the OVERFLOW variant of `okayvalue` is not modelled.
- DbzFile.Dbz.Fetch: requires a key that is not empty, since the C function reads the byte before its end.
- HistoryFile.History.HISfilesfor: requires an id that is not empty and has no tab or NUL, as the commands of the protocol deliver them; what it finds for an id that begins a longer one stored before it depends on the hash function and is stated by the index alone.
- HistoryFile.History.HISmaint: assumes pieces that have a key if they are copied, since dbz reads the byte before the end of a key, fresh files for the new index and an expiry for which the int product does not overflow. For an empty history the uninitialised buffer that is looked at is taken to hold a string.
- HistoryFile.History.StoreDB: assumes a history below 2^63 bytes; after a write out of bounds nothing more is claimed than that it happened.
- HistoryRuns: runs start from an empty history and do not contain an expiry; an expired history is one of `HistoryMaint.Rebuilt`.
- Wildmat.Wildmat: requires every class to be closed, as the header comment of the source does; MATCH_TAR_PATTERN is not defined.
- ZmLine.ZSender.Zsdata: requires data, since its do-while sends a byte before it looks at the length; the sender reaches it without data only when it starts at or beyond the end of the file (`Sender.FromFile`).
- HeaderScan.HeaderBack: a line has no pauses, its end is a timeout; so the one-tenth-second reads after CAN and after a hex header are ordinary reads, and carrier loss is not modelled. What a hex header leaves unread is stated by `Headers.HexLeaves` for a header without noise in it, because noise before its line end changes it.
- Headers: types are bytes, and `updcrc` is kept to the 16 bits of the variable it is assigned to. Crc.Residue16 holds for any table, so the contents of `crctab` are not written out.
- Sender: a reply is what `zgethdr` returns and positions are unbounded here, while headers carry them modulo 2^32 (`Headers.PositionBack`); block lengths are any positive number, so `calc_blklen` and the error counter are not modelled, nor are ZSKIP, ZCRC and the name exchange in `zsendfile` before the first ZRPOS, the window code, READCHECK, mmap, interrupts and failing seeks.
- Sender.Safety: the receiver is a small abstract one, since the repository has none; a damaged event is noticed as damaged, and none is lost in the middle of a frame without being noticed.
- Transfer.FileArrives: the same receiver, reading with the functions of `rzsz/zm.c`; from the last request on the line carries flow control as its only noise, less than `max_garbage` of it before the first ZPAD of each header, files are below 2^32 bytes, and a subpacket without data is one with the 32-bit check. Damage before that request is only covered by `Sender.Safety`, which takes it to be noticed.
- Feeds: `search_nodelist_bynode` is any function from names to places in the list, `feedfp` a flag, and an exclusion list that is NULL counts as empty. feedfplog keeps each list as a string that changes as isexcluded is proved to change it in memory. Only the Path of a feed line is modelled.
- Flood: one article with a Path header, ordinary (control messages, cancels and NoCeM notices are only told apart); `receive_article` accepts and forwards with the words of its groups' feeds, and each feed line is one message that may also be lost.
- Flood.Client.Take: what receive_article and receive_nocem return is a parameter, and so what they do themselves with a BODY that may be NULL or stale is not part of it.
- MpInt: gmp's conversions are the functions Bits, Digits and Parse on natural numbers; negative numbers are not modelled, nor is the overflow of the queue's unsigned counters or the clearing of temporary memory.
- MpInt.Buffer.GetMpInt: for a bit count of 0, which the writer never produces, the text to be read is never set; the model only says so.
- XMODEM and YMODEM, the other NNTP commands, filters, the web server and the remaining utilities are not modelled.
