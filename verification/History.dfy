/** Dates in history lines: printed with "%ld", read back with atol(). */
module DateText {
  type Byte = bv8
  type Bytes = seq<Byte>

  const TAB: Byte := 9

  predicate IsDigit(b: Byte) {
    48 <= b <= 57
  }

  function Digit(d: nat): (b: Byte)
    requires d < 10
    ensures IsDigit(b)
  {
    if d == 0 then 48 else if d == 1 then 49 else if d == 2 then 50 else if d == 3 then 51
    else if d == 4 then 52 else if d == 5 then 53 else if d == 6 then 54 else if d == 7 then 55
    else if d == 8 then 56 else 57
  }

  function DigitOf(b: Byte): (d: nat)
    requires IsDigit(b)
    ensures d < 10 && Digit(d) == b
  {
    if b == 48 then 0 else if b == 49 then 1 else if b == 50 then 2 else if b == 51 then 3
    else if b == 52 then 4 else if b == 53 then 5 else if b == 54 then 6 else if b == 55 then 7
    else if b == 56 then 8 else 9
  }

  function Decimal(n: nat): (d: Bytes)
    ensures d != [] && forall i :: 0 <= i < |d| ==> IsDigit(d[i])
  {
    if n < 10 then [Digit(n)] else Decimal(n / 10) + [Digit(n % 10)]
  }

  /** The digits of `s` from the left, up to the first byte that is none, after value `v`. */
  function ReadDigits(s: Bytes, v: nat): nat
    decreases |s|
  {
    if s == [] || !IsDigit(s[0]) then v else ReadDigits(s[1..], 10 * v + DigitOf(s[0]))
  }

  function SkipSpace(s: Bytes): Bytes
    decreases |s|
  {
    if s != [] && s[0] in {32, 9, 10, 11, 12, 13} then SkipSpace(s[1..]) else s
  }

  function Atol(s: Bytes): int {
    var t := SkipSpace(s);
    if t != [] && t[0] == 45 then 0 - ReadDigits(t[1..], 0)
    else if t != [] && t[0] == 43 then ReadDigits(t[1..], 0)
    else ReadDigits(t, 0)
  }

  lemma DigitOfDigit(d: nat)
    requires d < 10
    ensures DigitOf(Digit(d)) == d
  {
  }

  lemma ReadOne(d: nat, tail: Bytes, v: nat)
    requires d < 10
    ensures ReadDigits([Digit(d)] + tail, v) == ReadDigits(tail, 10 * v + d)
  {
    DigitOfDigit(d);
    assert ([Digit(d)] + tail)[1..] == tail;
  }

  lemma {:induction false} ReadDecimal(n: nat, tail: Bytes)
    ensures ReadDigits(Decimal(n) + tail, 0) == ReadDigits(tail, n)
    decreases n
  {
    if n < 10 {
      ReadOne(n, tail, 0);
    } else {
      var last := [Digit(n % 10)] + tail;
      assert Decimal(n) + tail == Decimal(n / 10) + last;
      ReadDecimal(n / 10, last);
      ReadOne(n % 10, tail, n / 10);
    }
  }

  lemma AtolFromDigit(s: Bytes)
    requires s != [] && IsDigit(s[0])
    ensures Atol(s) == ReadDigits(s, 0)
  {
  }

  /** The date that storeDB writes is the date that HISmaint reads. */
  lemma DateReadBack(now: nat, paths: Bytes)
    ensures Atol(Decimal(now) + [TAB] + paths) == now
  {
    var tail := [TAB] + paths;
    assert Decimal(now) + [TAB] + paths == Decimal(now) + tail;
    assert (Decimal(now) + tail)[0] == Decimal(now)[0];
    AtolFromDigit(Decimal(now) + tail);
    ReadDecimal(now, tail);
  }
}

/** The news history of innbbsd/his.c and innbbsd/dbztool.c as a value: a text file of lines
    "id TAB rest", which of its lines the dbz index knows, and what is read back for an id. */
module HistoryModel {
  import opened Basics
  import opened DbzIndex
  import opened DateText
  import Slots

  const NEWLINE: Byte := 10
  const ANGLE: Byte := 62
  /** DBfetch and DBstore print a key with "%.510s". */
  const KEYCHARS: nat := 510
  /** HISfilesfor reads LEN - 1 bytes at a time, DBfetch gives it a buffer of LEN + 1. */
  const LEN: nat := 1024
  const READSIZE: nat := LEN - 1

  /** One line of the history: `rest` is the text after the first tab, newline included. */
  datatype Record = Record(id: Bytes, rest: Bytes)

  function LineOf(r: Record): Bytes {
    r.id + [TAB] + r.rest
  }

  function Text(recs: seq<Record>): Bytes {
    if recs == [] then [] else Text(recs[..|recs| - 1]) + LineOf(recs[|recs| - 1])
  }

  /** An id as the callers pass it. */
  predicate GoodId(id: Bytes) {
    id != [] && TAB !in id && NEWLINE !in id && 0 !in id
  }

  /** A Message-ID ends in its only '>'. */
  predicate IsMessageId(id: Bytes) {
    GoodId(id) && id[|id| - 1] == ANGLE && ANGLE !in id[..|id| - 1]
  }

  predicate GoodRest(rest: Bytes) {
    rest != [] && rest[|rest| - 1] == NEWLINE && NEWLINE !in rest[..|rest| - 1] && 0 !in rest
  }

  /** A record that is one line of text. */
  predicate GoodRecord(r: Record) {
    GoodId(r.id) && GoodRest(r.rest)
  }

  predicate AllGood(recs: seq<Record>) {
    forall i :: 0 <= i < |recs| ==> GoodRecord(recs[i])
  }

  /** A record that the index can tell from others: all that HISmaint leaves of a line that
      does not fit its buffer. */
  predicate Keyed(r: Record) {
    r.id != [] && TAB !in r.id && 0 !in r.id && 0 !in r.rest
  }

  predicate AllKeyed(recs: seq<Record>) {
    forall i :: 0 <= i < |recs| ==> Keyed(recs[i])
  }

  /** No indexed id before the first line of `id` is longer and begins with it. */
  predicate NoLonger(recs: seq<Record>, id: Bytes) {
    forall i :: 0 <= i < FirstLine(recs, id) && |recs[i].id| < DBZMAXKEY ==> !(id <= recs[i].id)
  }

  /** The index entries: a line whose id is too long for dbz has none. */
  function LogOf(recs: seq<Record>): (log: seq<Entry>)
    ensures |log| <= |recs|
  {
    if recs == [] then []
    else
      var n := |recs| - 1;
      if |recs[n].id| < DBZMAXKEY then LogOf(recs[..n]) + [Entry(recs[n].id, |Text(recs[..n])|)]
      else LogOf(recs[..n])
  }

  // ----- The index finds the first line of every id that it can hold -----

  /** The number of the first line of `id`, |recs| if there is none. */
  function FirstLine(recs: seq<Record>, id: Bytes): (i: nat)
    ensures i <= |recs| && (i < |recs| ==> recs[i].id == id)
    ensures forall j :: 0 <= j < i ==> recs[j].id != id
  {
    if recs == [] then 0
    else
      var n := |recs| - 1;
      var i := FirstLine(recs[..n], id);
      if i < n then i else if recs[n].id == id then n else n + 1
  }

  predicate Known(recs: seq<Record>, id: Bytes) {
    |id| < DBZMAXKEY && FirstLine(recs, id) < |recs|
  }

  lemma {:induction false} FirstLineAppend(recs: seq<Record>, r: Record, id: Bytes)
    ensures FirstLine(recs + [r], id) ==
      if FirstLine(recs, id) < |recs| then FirstLine(recs, id) else if r.id == id then |recs| else |recs| + 1
  {
    assert (recs + [r])[..|recs|] == recs;
  }

  /** The text has the line of record `i` at its place. */
  lemma {:induction false} LineAt(recs: seq<Record>, i: nat)
    requires i < |recs|
    ensures |Text(recs[..i])| + |LineOf(recs[i])| <= |Text(recs)|
    ensures Text(recs)[|Text(recs[..i])|..|Text(recs[..i])| + |LineOf(recs[i])|] == LineOf(recs[i])
    decreases |recs|
  {
    var n := |recs| - 1;
    var front, o := Text(recs[..n]), |Text(recs[..i])|;
    if i < n {
      LineAt(recs[..n], i);
      assert recs[..n][..i] == recs[..i];
      assert Text(recs)[o..o + |LineOf(recs[i])|] == front[o..o + |LineOf(recs[i])|];
    } else {
      assert (front + LineOf(recs[n]))[|front|..] == LineOf(recs[n]);
    }
  }

  /** Entry `e` of the log is the line of some record. */
  ghost predicate EntryIs(recs: seq<Record>, e: Entry, i: int) {
    0 <= i < |recs| && e == Entry(recs[i].id, |Text(recs[..i])|) && |recs[i].id| < DBZMAXKEY
  }

  ghost predicate IsEntry(recs: seq<Record>, e: Entry) {
    exists i :: EntryIs(recs, e, i)
  }

  lemma {:induction false} LogEntries(recs: seq<Record>)
    ensures forall m :: 0 <= m < |LogOf(recs)| ==> IsEntry(recs, LogOf(recs)[m])
    ensures forall m :: 0 <= m < |LogOf(recs)| ==> LogOf(recs)[m].offset < |Text(recs)|
    ensures Increasing(LogOf(recs))
    decreases |recs|
  {
    if recs != [] {
      var n := |recs| - 1;
      var before := recs[..n];
      LogEntries(before);
      forall m | 0 <= m < |LogOf(recs)|
        ensures IsEntry(recs, LogOf(recs)[m])
      {
        if m < |LogOf(before)| {
          var i :| EntryIs(before, LogOf(before)[m], i);
          assert before[..i] == recs[..i];
          assert EntryIs(recs, LogOf(recs)[m], i);
        } else {
          assert EntryIs(recs, LogOf(recs)[m], n);
        }
      }
    }
  }

  lemma {:induction false} LookupLine(recs: seq<Record>, id: Bytes)
    requires |id| < DBZMAXKEY
    ensures Lookup(LogOf(recs), id) ==
      if FirstLine(recs, id) < |recs| then Some(|Text(recs[..FirstLine(recs, id)])|) else None
    decreases |recs|
  {
    if recs != [] {
      var n := |recs| - 1;
      LookupLine(recs[..n], id);
      if |recs[n].id| < DBZMAXKEY {
        LookupAppend(LogOf(recs[..n]), Entry(recs[n].id, |Text(recs[..n])|), id);
      }
      var i := FirstLine(recs[..n], id);
      assert i < n ==> recs[..n][..i] == recs[..i];
    }
  }

  lemma {:induction false} LookupAppend(log: seq<Entry>, e: Entry, key: Bytes)
    ensures Lookup(log + [e], key) ==
      if Lookup(log, key) != None then Lookup(log, key) else if e.key == key then Some(e.offset) else None
  {
    var i, j := First(log, key), First(log + [e], key);
    assert forall m :: 0 <= m < |log| ==> (log + [e])[m] == log[m];
    assert (log + [e])[|log|] == e;
  }

  /** A Message-ID cannot be the start of another. */
  lemma IdsArePrefixFree(a: Bytes, b: Bytes)
    requires IsMessageId(a) && IsMessageId(b) && a <= b
    ensures a == b
  {
    var n := |b| - 1;
    assert forall i :: 0 <= i < n ==> b[..n][i] == b[i] && b[i] != ANGLE;
    assert a[|a| - 1] == b[|a| - 1];
  }

  // The same of the index entries, line by line.

  predicate Begun(recs: seq<Record>, key: Bytes) {
    if recs == [] then false
    else
      var n := |recs| - 1;
      Begun(recs[..n], key)
      || (FirstLine(recs[..n], key) == n && |recs[n].id| < DBZMAXKEY && recs[n].id != key && key <= recs[n].id)
  }

  predicate BegunInLog(log: seq<Entry>, key: Bytes) {
    if log == [] then false
    else
      var n := |log| - 1;
      BegunInLog(log[..n], key) || (First(log[..n], key) == n && log[n].key != key && key <= log[n].key)
  }

  lemma {:induction false} BegunIff(recs: seq<Record>, key: Bytes)
    ensures Begun(recs, key) <==> !NoLonger(recs, key)
    decreases |recs|
  {
    if recs != [] {
      var n := |recs| - 1;
      BegunIff(recs[..n], key);
      NoLongerAppend(recs[..n], recs[n], key);
      assert recs == recs[..n] + [recs[n]];
    }
  }

  lemma {:induction false} BegunInLogIff(log: seq<Entry>, key: Bytes)
    ensures BegunInLog(log, key) <==> !NoneBegins(log, key)
    decreases |log|
  {
    if log != [] {
      var n := |log| - 1;
      BegunInLogIff(log[..n], key);
      NoneBeginsAppend(log[..n], log[n], key);
      assert log == log[..n] + [log[n]];
    }
  }

  lemma {:induction false} SameBegun(recs: seq<Record>, key: Bytes)
    requires |key| < DBZMAXKEY
    ensures First(LogOf(recs), key) < |LogOf(recs)| <==> FirstLine(recs, key) < |recs|
    ensures BegunInLog(LogOf(recs), key) <==> Begun(recs, key)
    decreases |recs|
  {
    if recs != [] {
      var n := |recs| - 1;
      SameBegun(recs[..n], key);
      if |recs[n].id| < DBZMAXKEY {
        var log, e := LogOf(recs[..n]), Entry(recs[n].id, |Text(recs[..n])|);
        FirstAppend(log, e, key);
        assert (log + [e])[..|log|] == log;
      }
    }
  }

  lemma NoLongerInLog(recs: seq<Record>, key: Bytes)
    requires |key| < DBZMAXKEY
    ensures NoLonger(recs, key) <==> NoneBegins(LogOf(recs), key)
  {
    BegunIff(recs, key);
    BegunInLogIff(LogOf(recs), key);
    SameBegun(recs, key);
  }

  /** No entry before the first one of `key` begins with it. */
  predicate NoneBegins(log: seq<Entry>, key: Bytes) {
    forall i :: 0 <= i < First(log, key) ==> !(key <= log[i].key)
  }

  lemma NoLongerAppend(recs: seq<Record>, r: Record, key: Bytes)
    ensures var begins := FirstLine(recs, key) == |recs| && |r.id| < DBZMAXKEY && r.id != key && key <= r.id;
      NoLonger(recs + [r], key) <==> NoLonger(recs, key) && !begins
  {
    FirstLineAppend(recs, r, key);
    var all := recs + [r];
    assert forall i :: 0 <= i < |recs| ==> all[i] == recs[i];
    if NoLonger(all, key) {
      assert forall i :: 0 <= i < FirstLine(recs, key) && |recs[i].id| < DBZMAXKEY ==> !(key <= all[i].id);
    }
  }

  lemma NoneBeginsAppend(log: seq<Entry>, e: Entry, key: Bytes)
    ensures var begins := First(log, key) == |log| && e.key != key && key <= e.key;
      NoneBegins(log + [e], key) <==> NoneBegins(log, key) && !begins
    ensures First(log + [e], key) < |log + [e]| <==> First(log, key) < |log| || e.key == key
  {
    FirstAppend(log, e, key);
    var all := log + [e];
    assert forall i :: 0 <= i < |log| ==> all[i] == log[i];
    if NoneBegins(all, key) {
      forall i | 0 <= i < First(log, key) ensures !(key <= log[i].key) {
        assert all[i] == log[i];
      }
      if First(log, key) == |log| && e.key != key {
        assert all[|log|] == e;
      }
    }
    if NoneBegins(log, key) && !(First(log, key) == |log| && e.key != key && key <= e.key) {
      forall i | 0 <= i < First(all, key) ensures !(key <= all[i].key) {
        assert all[i] == if i < |log| then log[i] else e;
      }
    }
  }

  lemma FirstAppend(log: seq<Entry>, e: Entry, key: Bytes)
    ensures First(log + [e], key) ==
      if First(log, key) < |log| then First(log, key) else if e.key == key then |log| else |log| + 1
  {
    var i, j := First(log, key), First(log + [e], key);
    assert forall m :: 0 <= m < |log| ==> (log + [e])[m] == log[m];
    assert (log + [e])[|log|] == e;
  }

  lemma LongerThanAll(recs: seq<Record>, key: Bytes)
    requires |key| >= DBZMAXKEY
    ensures NoLonger(recs, key) && NoneBegins(LogOf(recs), key)
  {
    LogEntries(recs);
    forall m | 0 <= m < |LogOf(recs)| ensures !(key <= LogOf(recs)[m].key) {
      assert IsEntry(recs, LogOf(recs)[m]);
    }
  }

  lemma EntriesHold(recs: seq<Record>, m: nat)
    requires AllKeyed(recs) && m < |LogOf(recs)|
    ensures var e := LogOf(recs)[m]; HoldsLine(Text(recs), TAB, e) && WellFormedKey(TAB, e.key) && Bare(e.key) == e.key
  {
    LogEntries(recs);
    assert IsEntry(recs, LogOf(recs)[m]);
    var i :| EntryIs(recs, LogOf(recs)[m], i);
    EntryHolds(recs, LogOf(recs)[m], i);
  }

  /** In the history, comparing at the indexed lines up to an id's own first one succeeds exactly
      for that, unless a longer id before it begins with the id. */
  lemma HistoryDistinguishes(recs: seq<Record>, key: Bytes)
    requires AllKeyed(recs) && key != [] && TAB !in key && 0 !in key
    ensures Distinguishes(Comparer(Text(recs), TAB, key), LogOf(recs), key) <==> NoLonger(recs, key)
  {
    var log := LogOf(recs);
    forall m | 0 <= m < |log|
      ensures HoldsLine(Text(recs), TAB, log[m]) && WellFormedKey(TAB, log[m].key) && Bare(log[m].key) == log[m].key
    {
      EntriesHold(recs, m);
    }
    BareKeysDistinguished(Text(recs), TAB, log, key);
    if |key| < DBZMAXKEY {
      NoLongerInLog(recs, key);
    } else {
      LongerThanAll(recs, key);
    }
  }

  lemma Subslice(t: Bytes, o: nat, n: nat, m: nat)
    requires m <= n && o + n <= |t|
    ensures t[o..o + n][..m] == t[o..o + m]
  {
  }

  lemma EntryHolds(recs: seq<Record>, e: Entry, i: nat)
    requires AllKeyed(recs) && EntryIs(recs, e, i)
    ensures HoldsLine(Text(recs), TAB, e) && WellFormedKey(TAB, e.key) && Bare(e.key) == e.key
  {
    LineAt(recs, i);
    assert Keyed(recs[i]);
    var line := recs[i].id + [TAB];
    var whole := Text(recs)[e.offset..e.offset + |LineOf(recs[i])|];
    assert whole[..|line|] == line;
    Subslice(Text(recs), e.offset, |LineOf(recs[i])|, |line|);
  }

  /** Keys cut to DBZMAXKEY bytes are longer than all that the index holds. */
  lemma CutKeyUnknown(recs: seq<Record>, key: Bytes)
    requires |key| >= DBZMAXKEY
    ensures Lookup(LogOf(recs), key) == None
  {
    LogEntries(recs);
    var log := LogOf(recs);
    forall m | 0 <= m < |log| ensures log[m].key != key {
      assert IsEntry(recs, log[m]);
    }
  }

  /** The offset that dbz has for `id`. */
  ghost function Located<V(!new)>(s: Scheme<V>, recs: seq<Record>, id: Bytes): (o: Option<nat>)
    requires Sound(s) && id != []
  {
    var key := Truncated(id);
    Scan(s, Index(s, LogOf(recs)), Comparer(Text(recs), TAB, key), s.hash(key), 0)
  }

  /** Fetching an id from the index of the history gives the offset of its first line. */
  lemma HistoryFetch<V(!new)>(s: Scheme<V>, recs: seq<Record>, id: Bytes)
    requires Sound(s) && AllKeyed(recs) && AllOkay(s, LogOf(recs))
    requires id != [] && TAB !in id && 0 !in id && NoLonger(recs, id)
    ensures Located(s, recs, id) == if Known(recs, id) then Some(|Text(recs[..FirstLine(recs, id)])|) else None
  {
    var key := Truncated(id);
    HistoryDistinguishes(recs, key);
    LogEntries(recs);
    ComparerReadsForward(Text(recs), TAB, key);
    FetchIsLookup(s, LogOf(recs), Comparer(Text(recs), TAB, key), key);
    if |id| < DBZMAXKEY {
      LookupLine(recs, id);
    } else {
      CutKeyUnknown(recs, key);
    }
  }

  ghost predicate LocatedRight<V(!new)>(s: Scheme<V>, recs: seq<Record>, id: Bytes)
    requires id != []
  {
    Sound(s) && AllOkay(s, LogOf(recs)) ==>
      Located(s, recs, id) == if Known(recs, id) then Some(|Text(recs[..FirstLine(recs, id)])|) else None
  }

  /** Fetching an id gives its own first line with every hash function and slot coding exactly if
      no longer one before that begins with it. */
  lemma LocatedRightIff(recs: seq<Record>, id: Bytes)
    requires AllKeyed(recs) && id != [] && TAB !in id && 0 !in id
    ensures (forall s: Scheme<Option<nat>> :: LocatedRight(s, recs, id)) <==> NoLonger(recs, id)
  {
    if NoLonger(recs, id) {
      forall s: Scheme<Option<nat>> ensures LocatedRight(s, recs, id) {
        if Sound(s) && AllOkay(s, LogOf(recs)) {
          HistoryFetch(s, recs, id);
        }
      }
    } else {
      if |id| >= DBZMAXKEY {
        LongerThanAll(recs, id);
      }
      var s := MistakenScheme(recs, id);
      assert !LocatedRight(s, recs, id);
    }
  }

  lemma MistakenScheme(recs: seq<Record>, id: Bytes) returns (s: Scheme<Option<nat>>)
    requires AllKeyed(recs) && id != [] && TAB !in id && 0 !in id && |id| < DBZMAXKEY && !NoLonger(recs, id)
    ensures !LocatedRight(s, recs, id)
  {
    var log, cmp := LogOf(recs), Comparer(Text(recs), TAB, id);
    LogEntries(recs);
    ComparerReadsForward(Text(recs), TAB, id);
    HistoryDistinguishes(recs, id);
    OwnLineCompares(recs, id);
    AlwaysRightIff(log, cmp, id);
    s :| !RightFor(s, log, cmp, id);
    WrongIsWrong(s, recs, id);
  }

  lemma WrongIsWrong<V(!new)>(s: Scheme<V>, recs: seq<Record>, id: Bytes)
    requires |id| < DBZMAXKEY && id != [] && !RightFor(s, LogOf(recs), Comparer(Text(recs), TAB, id), id)
    ensures !LocatedRight(s, recs, id)
  {
    LookupLine(recs, id);
  }

  lemma OwnLineCompares(recs: seq<Record>, id: Bytes)
    requires AllKeyed(recs) && id != [] && TAB !in id && 0 !in id
    ensures var i := First(LogOf(recs), id);
      i < |LogOf(recs)| ==> Compare(Text(recs), TAB, id, LogOf(recs)[i].offset) == Same
  {
    var i := First(LogOf(recs), id);
    if i < |LogOf(recs)| {
      EntriesHold(recs, i);
      CompareLine(Text(recs), TAB, LogOf(recs)[i], id);
    }
  }

  // ----- What is read at an offset -----

  /** What DBfetch returns: no pointer, the text after the id, or a line too long for its
      buffer, in which case it writes past the buffer's end. */
  datatype Answer = Missing | Found(text: Bytes) | OutOfBounds

  /** strchr(): where `c` first stands in `s`, |s| if nowhere. */
  function IndexOf(s: Bytes, c: Byte): (i: nat)
    ensures i <= |s| && c !in s[..i] && (i < |s| ==> s[i] == c)
  {
    if s == [] then 0 else if s[0] == c then 0
    else
      var i := IndexOf(s[1..], c);
      assert s[..i + 1] == [s[0]] + s[1..][..i];
      1 + i
  }

  lemma IndexIs(s: Bytes, c: Byte, i: nat)
    requires i <= |s| && c !in s[..i] && (i < |s| ==> s[i] == c)
    ensures IndexOf(s, c) == i
  {
    var j := IndexOf(s, c);
    assert forall k :: 0 <= k < i ==> s[k] in s[..i];
    assert forall k :: 0 <= k < j ==> s[k] in s[..j];
  }

  /** What one read() at `o` gives. */
  function Chunk(text: Bytes, o: nat): (chunk: Bytes)
    ensures |chunk| <= READSIZE
  {
    if o >= |text| then [] else if o + READSIZE <= |text| then text[o..o + READSIZE] else text[o..]
  }

  /** The text after the first tab of a line. */
  function AfterTab(line: Bytes): Answer {
    var q := IndexOf(line, TAB);
    if q == |line| then Missing else Found(line[q + 1..])
  }

  /** How HISfilesfor answers for the text at `o`: from the line there if its end is in the
      first read. Only one byte more can be read without overrunning the buffer. */
  function LineRead(text: Bytes, o: nat): Answer {
    var chunk := Chunk(text, o);
    var p := IndexOf(chunk, NEWLINE);
    if p < |chunk| then AfterTab(chunk[..p])
    else if |text| <= o + |chunk| + 1 then Missing
    else OutOfBounds
  }

  /** DBfetch's answer for an id, by the index `s` of the history. */
  ghost function Reply<V(!new)>(s: Scheme<V>, recs: seq<Record>, id: Bytes): Answer
    requires Sound(s) && id != []
  {
    match Located(s, recs, id)
    case None => Missing
    case Some(o) => LineRead(Text(recs), o)
  }

  /** What is read at the first line of an id that the index can hold. */
  function AnswerAt(recs: seq<Record>, id: Bytes): Answer {
    if Known(recs, id) then LineRead(Text(recs), |Text(recs[..FirstLine(recs, id)])|) else Missing
  }

  lemma ReplyFrom<V(!new)>(s: Scheme<V>, recs: seq<Record>, id: Bytes, o: Option<nat>, r: Answer)
    requires Sound(s) && id != [] && o == Located(s, recs, id)
    requires r == if o == None then Missing else LineRead(Text(recs), o.value)
    ensures r == Reply(s, recs, id)
  {
  }

  /** Unless the id begins a longer one, the index leads to its own first line. */
  lemma ReplyIsAnswer<V(!new)>(s: Scheme<V>, recs: seq<Record>, id: Bytes)
    requires Sound(s) && AllKeyed(recs) && AllOkay(s, LogOf(recs)) && id != [] && TAB !in id && 0 !in id
    ensures NoLonger(recs, id) ==> Reply(s, recs, id) == AnswerAt(recs, id)
  {
    if NoLonger(recs, id) {
      HistoryFetch(s, recs, id);
    }
  }

  /** The same line for an id that begins the only one stored, if their hashes are the same. */
  lemma PrefixIsAnswered<V(!new)>(s: Scheme<V>, r: Record, id: Bytes)
    requires Sound(s) && s.okay(0) && Keyed(r) && |r.id| < DBZMAXKEY
    requires id != [] && id < r.id && s.hash(id) == s.hash(r.id)
    ensures Reply(s, [r], id) == AnswerAt([r], r.id) && AnswerAt([r], id) == Missing
  {
    OneRecord(r);
    PrefixLocated(s, r, id);
  }

  lemma PrefixLocated<V(!new)>(s: Scheme<V>, r: Record, id: Bytes)
    requires Sound(s) && s.okay(0) && Keyed(r) && |r.id| < DBZMAXKEY
    requires id != [] && id < r.id && s.hash(id) == s.hash(r.id)
    ensures Located(s, [r], id) == Some(0)
  {
    var log := [Entry(r.id, 0)];
    OneRecord(r);
    FirstProbeHits(s, log[0]);
    PrefixCompares(r, id);
  }

  lemma FirstProbeHits<V(!new)>(s: Scheme<V>, e: Entry)
    requires Sound(s) && s.okay(e.offset)
    ensures var h := s.hash(e.key); Seen(s, h, At(s, Index(s, [e]), Probe(s.tsize, h, 0))) == Slots.Candidate(e.offset)
  {
    var log := [e];
    assert log[..0] == [] && Pos(s, log, 0) == 0;
    SlotHolds(s, log, 0);
  }

  lemma OneRecord(r: Record)
    requires |r.id| < DBZMAXKEY
    ensures LogOf([r]) == [Entry(r.id, 0)] && Text([r]) == LineOf(r)
    ensures FirstLine([r], r.id) == 0 && Text([r][..0]) == []
  {
    assert [r][..0] == [];
  }

  lemma PrefixCompares(r: Record, id: Bytes)
    requires Keyed(r) && id != [] && id <= r.id
    ensures Compare(LineOf(r), TAB, id, 0) == Same
  {
    assert LineOf(r)[0..|id|] == id;
    assert id[|id| - 1] == r.id[|id| - 1];
  }

  // ----- By the length of the line -----

  /** In what is read from the start of a line, the first newline is the end of the line. */
  lemma NewlineEndsLine(r: Record, text: Bytes, o: nat)
    requires GoodRecord(r) && o + |LineOf(r)| <= |text| && text[o..o + |LineOf(r)|] == LineOf(r)
    ensures var n := |Chunk(text, o)|;
      IndexOf(Chunk(text, o), NEWLINE) == if |LineOf(r)| <= READSIZE then |LineOf(r)| - 1 else READSIZE
    ensures |LineOf(r)| <= READSIZE ==> LineOf(r) <= Chunk(text, o)
  {
    var line, chunk := LineOf(r), Chunk(text, o);
    var e := if |line| <= READSIZE then |line| - 1 else READSIZE;
    assert forall j :: 0 <= j < |chunk| && j < |line| ==> chunk[j] == text[o..o + |line|][j];
    InnerBytes(r);
    assert forall j :: 0 <= j < e ==> chunk[..e][j] == chunk[j] == line[j];
    IndexIs(chunk, NEWLINE, e);
  }

  lemma InnerBytes(r: Record)
    requires GoodRecord(r)
    ensures forall j :: 0 <= j < |LineOf(r)| - 1 ==> LineOf(r)[j] != NEWLINE
    ensures LineOf(r)[|LineOf(r)| - 1] == NEWLINE
  {
    var line := LineOf(r);
    var inner := r.id + [TAB] + r.rest[..|r.rest| - 1];
    assert line[..|line| - 1] == inner;
    forall j | 0 <= j < |line| - 1 ensures line[j] != NEWLINE {
      assert line[..|line| - 1][j] == line[j];
    }
  }

  lemma CutLine(r: Record, chunk: Bytes)
    requires GoodRecord(r) && LineOf(r) <= chunk
    ensures AfterTab(chunk[..|LineOf(r)| - 1]) == Found(r.rest[..|r.rest| - 1])
  {
    var line := chunk[..|LineOf(r)| - 1];
    assert line == r.id + [TAB] + r.rest[..|r.rest| - 1];
    assert line[|r.id|] == TAB && line[..|r.id|] == r.id;
    IndexIs(line, TAB, |r.id|);
    assert line[|r.id| + 1..] == r.rest[..|r.rest| - 1];
  }

  /** Reading at a line gives its text if it fits one read. The last line of the file, one byte
      longer, is not found; any other line is too long for the buffer. */
  lemma LineReadOf(r: Record, text: Bytes, o: nat)
    requires GoodRecord(r) && o + |LineOf(r)| <= |text| && text[o..o + |LineOf(r)|] == LineOf(r)
    ensures LineRead(text, o) ==
      if |LineOf(r)| <= READSIZE then Found(r.rest[..|r.rest| - 1])
      else if o + LEN == |text| then Missing
      else OutOfBounds
  {
    NewlineEndsLine(r, text, o);
    if |LineOf(r)| <= READSIZE {
      CutLine(r, Chunk(text, o));
    }
  }

  lemma AnswerByLength(recs: seq<Record>, id: Bytes)
    requires AllGood(recs) && Known(recs, id)
    ensures var i := FirstLine(recs, id);
      AnswerAt(recs, id) ==
      if |LineOf(recs[i])| <= READSIZE then Found(recs[i].rest[..|recs[i].rest| - 1])
      else if |LineOf(recs[i])| == LEN && i == |recs| - 1 then Missing
      else OutOfBounds
  {
    LineReadAt(recs, FirstLine(recs, id));
  }

  lemma LineReadAt(recs: seq<Record>, i: nat)
    requires AllGood(recs) && i < |recs|
    ensures LineRead(Text(recs), |Text(recs[..i])|) ==
      if |LineOf(recs[i])| <= READSIZE then Found(recs[i].rest[..|recs[i].rest| - 1])
      else if |LineOf(recs[i])| == LEN && i == |recs| - 1 then Missing
      else OutOfBounds
  {
    LineAt(recs, i);
    assert GoodRecord(recs[i]);
    LineReadOf(recs[i], Text(recs), |Text(recs[..i])|);
    LastLine(recs, i);
  }

  /** Only the last line reaches the end of the text. */
  lemma LastLine(recs: seq<Record>, i: nat)
    requires i < |recs|
    ensures |Text(recs[..i])| + |LineOf(recs[i])| == |Text(recs)| <==> i == |recs| - 1
  {
    LineAt(recs, i);
    if i < |recs| - 1 {
      LineAt(recs[..|recs| - 1], i);
      assert recs[..|recs| - 1][..i] == recs[..i];
    }
  }
}
