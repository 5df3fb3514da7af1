/** The .dir file of a dbz database, two lines of text: putconf(), getconf() and getno() of
    innbbsd/dbz.c. */
module DbzDir {
  import opened Basics
  import opened DateText

  const SPACE: Byte := 32
  const NEWLINE: Byte := 10
  const MINUS: Byte := 45
  const MAGIC: Bytes := [100, 98, 122]
  const VERSION: int := 3
  const SOF: nat := 8
  const NMEMORY: nat := 10
  /** getno() keeps this many characters of a number. */
  const MAXN: nat := 49

  /** What the .dir file records. */
  datatype Conf = Conf(tsize: int, fieldsep: int, casemap: Byte, tagenb: int, tagmask: int, tagshift: int,
    bytemap: seq<int>, used: seq<int>)

  predicate IsLong(n: int) {
    -0x8000_0000_0000_0000 <= n < 0x8000_0000_0000_0000
  }

  predicate IsInt(n: int) {
    -0x8000_0000 <= n < 0x8000_0000
  }

  /** The values fit the fields of struct dbzconfig. */
  predicate Fits(c: Conf) {
    IsLong(c.tsize) && -128 <= c.fieldsep < 128 && IsLong(c.tagenb) && IsLong(c.tagmask) && IsInt(c.tagshift)
    && |c.bytemap| == SOF && |c.used| == 1 + NMEMORY
    && (forall n :: n in c.bytemap ==> IsInt(n)) && forall n :: n in c.used ==> IsLong(n)
  }

  // What getconf() takes an empty file for: C News case mapping and tags of seven bits.

  const DEFSIZE: int := 120011
  const DEFCASE: Byte := 67
  const TAGENB: int := 0x80
  const TAGMASK: int := 0x7F
  const TAGSHIFT: int := 24

  // ----- Writing -----

  /** "%ld" */
  function PutNo(n: int): (d: Bytes)
    ensures d != []
  {
    if n < 0 then [MINUS] + Decimal(-n) else Decimal(n)
  }

  /** Numbers with a blank before each. */
  function Spaced(ns: seq<int>): Bytes {
    if ns == [] then [] else [SPACE] + PutNo(ns[0]) + Spaced(ns[1..])
  }

  /** The numbers before the case map, and those after it. */
  function Before(c: Conf): seq<int> { [VERSION, c.tsize, c.fieldsep] }

  function Behind(c: Conf): seq<int> { [c.tagenb, c.tagmask, c.tagshift, SOF] + c.bytemap }

  /** The text that putconf() writes. */
  function Text(c: Conf): Bytes
    requires c.used != []
  {
    MAGIC + (Spaced(Before(c)) + ([SPACE, c.casemap] + (Spaced(Behind(c)) + ([NEWLINE]
    + (PutNo(c.used[0]) + (Spaced(c.used[1..]) + [NEWLINE]))))))
  }

  // ----- Reading -----

  function SkipBlanks(s: Bytes): Bytes {
    if s != [] && s[0] == SPACE then SkipBlanks(s[1..]) else s
  }

  /** How far a number goes on: to a blank, a newline or the end of the file. */
  function Run(s: Bytes): (n: nat)
    ensures n <= |s| && (n < |s| ==> s[n] in {SPACE, NEWLINE})
  {
    if s == [] || s[0] in {SPACE, NEWLINE} then 0 else 1 + Run(s[1..])
  }

  predicate Numeric(s: Bytes) {
    forall i :: 0 <= i < |s| ==> s[i] == MINUS || IsDigit(s[i])
  }

  function Kept(s: Bytes): Bytes {
    if |s| <= MAXN then s else s[..MAXN]
  }

  /** getno(): the number, whether it is one, and what is left of the file. */
  function GetNo(s: Bytes): (int, bool, Bytes) {
    var t := SkipBlanks(s);
    if t == [] then (0, false, [])
    else if t[0] == NEWLINE then (0, false, t[1..])
    else
      var n := 1 + Run(t[1..]);
      (Atol(Kept(t[..n])), n < |t| && Numeric(Kept(t[..n])), t[n..])
  }

  function GetNos(s: Bytes, n: nat): (r: (seq<int>, bool, Bytes))
    ensures |r.0| == n
    decreases n
  {
    if n == 0 then ([], true, s)
    else
      var (x, ok, rest) := GetNo(s);
      var (xs, all, left) := GetNos(rest, n - 1);
      ([x] + xs, ok && all, left)
  }

  /** The value a char keeps of a long, and an int. */
  function ToChar(n: int): int {
    (n + 128) % 256 - 128
  }

  function ToInt(n: int): int {
    (n + 0x8000_0000) % 0x1_0000_0000 - 0x8000_0000
  }

  function ToInts(ns: seq<int>): seq<int> {
    seq(|ns|, i requires 0 <= i < |ns| => ToInt(ns[i]))
  }

  /** No configuration known, an error, or the configuration read. */
  datatype ConfRead = Empty | Bad | Known(conf: Conf)

  /** getconf() on the contents of the .dir file. */
  function GetConf(s: Bytes): ConfRead {
    if s == [] then Empty
    else if |s| < 3 || s[..3] != MAGIC then Bad
    else GetSizes(s[3..], 3)
  }

  /** Version, table size and field separator, and the case map behind any blanks. */
  function GetSizes(s: Bytes, n: nat): ConfRead
    requires n == 3
  {
    var (a, ok, s1) := GetNos(s, n);
    var s2 := SkipBlanks(s1);
    if s2 == [] || !ok || a[0] != VERSION then Bad else GetTags(a, s2[0], s2[1..])
  }

  /** Tags, the size of a value and the byte map. */
  function GetTags(a: seq<int>, casemap: Byte, s: Bytes): ConfRead
    requires |a| == 3
  {
    var (b, ok, rest) := GetNos(s, 4 + SOF);
    if !ok || ToInt(b[3]) != SOF || rest == [] || rest[0] != NEWLINE then Bad
    else GetUsed(a, casemap, b, rest[1..], 1 + NMEMORY)
  }

  /** The second line. */
  function GetUsed(a: seq<int>, casemap: Byte, b: seq<int>, s: Bytes, n: nat): ConfRead
    requires |a| == 3 && |b| == 4 + SOF
  {
    var (u, ok, rest) := GetNos(s, n);
    if !ok || rest == [] || rest[0] != NEWLINE then Bad else Known(Made(a, casemap, b, u))
  }

  function Made(a: seq<int>, casemap: Byte, b: seq<int>, u: seq<int>): Conf
    requires |a| == 3 && |b| == 4 + SOF
  {
    Conf(a[1], ToChar(a[2]), casemap, b[0], b[1], ToInt(b[2]), ToInts(b[4..]), u)
  }

  // ----- The round trip -----

  lemma {:induction false} DecimalLength(n: nat, k: nat)
    requires k > 0 && n < Power(k)
    ensures |Decimal(n)| <= k
    decreases k
  {
    if n >= 10 {
      DecimalLength(n / 10, k - 1);
    }
  }

  function Power(k: nat): nat {
    if k == 0 then 1 else 10 * Power(k - 1)
  }

  lemma LongLength(n: int)
    requires IsLong(n)
    ensures |PutNo(n)| <= 20
  {
    assert Power(19) == 10_000_000_000_000_000_000 by {
      assert Power(10) == 10_000_000_000;
    }
    DecimalLength(if n < 0 then -n else n, 19);
  }

  lemma NumberIs(n: int)
    ensures Atol(PutNo(n)) == n && Numeric(PutNo(n))
    ensures PutNo(n)[0] !in {SPACE, NEWLINE}
  {
    var m := if n < 0 then -n else n;
    ReadDecimal(m, []);
    assert Decimal(m) + [] == Decimal(m);
    if n < 0 {
      assert PutNo(n)[1..] == Decimal(m);
    } else {
      AtolFromDigit(PutNo(n));
    }
  }

  lemma {:induction false} RunIs(s: Bytes, rest: Bytes)
    requires rest != [] && rest[0] in {SPACE, NEWLINE}
    requires forall i :: 0 <= i < |s| ==> s[i] !in {SPACE, NEWLINE}
    ensures Run(s + rest) == |s|
    decreases |s|
  {
    if s == [] {
      assert s + rest == rest;
    } else {
      assert (s + rest)[1..] == s[1..] + rest;
      RunIs(s[1..], rest);
    }
  }

  /** A number is read back up to what follows it. */
  lemma NumberBack(n: int, rest: Bytes)
    requires IsLong(n) && rest != [] && rest[0] in {SPACE, NEWLINE}
    ensures GetNo(PutNo(n) + rest) == (n, true, rest)
    ensures GetNo([SPACE] + PutNo(n) + rest) == (n, true, rest)
  {
    NumberIs(n);
    LongLength(n);
    WordBack(PutNo(n), n, rest);
    Grouped([SPACE], PutNo(n), rest);
    BlankSkipped(PutNo(n) + rest);
  }

  lemma WordBack(d: Bytes, n: int, rest: Bytes)
    requires d != [] && |d| <= MAXN && Atol(d) == n && Numeric(d) && d[0] !in {SPACE, NEWLINE}
    requires rest != [] && rest[0] in {SPACE, NEWLINE}
    ensures GetNo(d + rest) == (n, true, rest)
  {
    var t := d + rest;
    assert t[0] == d[0] && t[1..] == d[1..] + rest;
    NoBlanks(d);
    RunIs(d[1..], rest);
    CutAfter(d, rest);
  }

  /** Of a longer number only the first 49 characters count. */
  lemma LongNumber(d: Bytes, rest: Bytes)
    requires |d| > 49 && Numeric(d) && rest != [] && rest[0] in {SPACE, NEWLINE}
    ensures GetNo(d + rest) == (Atol(d[..49]), true, rest)
  {
    var t := d + rest;
    assert t[0] == d[0] && t[1..] == d[1..] + rest;
    NoBlanks(d);
    RunIs(d[1..], rest);
    CutAfter(d, rest);
  }

  lemma BlankSkipped(s: Bytes)
    ensures GetNo([SPACE] + s) == GetNo(s)
  {
    assert ([SPACE] + s)[1..] == s;
  }

  lemma NoBlanks(d: Bytes)
    requires Numeric(d)
    ensures forall i :: 0 <= i < |d| ==> d[i] !in {SPACE, NEWLINE}
  {
  }

  lemma {:induction false} NumbersBack(ns: seq<int>, rest: Bytes)
    requires (forall n :: n in ns ==> IsLong(n)) && rest != [] && rest[0] in {SPACE, NEWLINE}
    ensures GetNos(Spaced(ns) + rest, |ns|) == (ns, true, rest)
  {
    if ns == [] {
      assert [] + rest == rest;
    } else {
      FirstBack(ns, Spaced(ns[1..]), rest);
      NumbersBack(ns[1..], rest);
      InFront(Spaced(ns) + rest, ns, Spaced(ns[1..]) + rest, rest);
    }
  }

  lemma FirstBack(ns: seq<int>, more: Bytes, rest: Bytes)
    requires ns != [] && IsLong(ns[0]) && more == Spaced(ns[1..]) && rest != [] && rest[0] in {SPACE, NEWLINE}
    ensures GetNo(Spaced(ns) + rest) == (ns[0], true, more + rest)
  {
    Grouped([SPACE] + PutNo(ns[0]), more, rest);
    Grouped([SPACE], PutNo(ns[0]), more + rest);
    assert ns[1..] != [] ==> more[0] == SPACE;
    NumberBack(ns[0], more + rest);
  }

  /** The second line, its first number without a blank before it. */
  lemma UsedBack(ns: seq<int>, rest: Bytes)
    requires ns != [] && (forall n :: n in ns ==> IsLong(n)) && rest != [] && rest[0] in {SPACE, NEWLINE}
    ensures GetNos(PutNo(ns[0]) + (Spaced(ns[1..]) + rest), |ns|) == (ns, true, rest)
  {
    var tail := Spaced(ns[1..]) + rest;
    assert ns[1..] != [] ==> Spaced(ns[1..])[0] == SPACE;
    NumberBack(ns[0], tail);
    NumbersBack(ns[1..], rest);
    InFront(PutNo(ns[0]) + tail, ns, tail, rest);
  }

  lemma InFront(s: Bytes, ns: seq<int>, tail: Bytes, rest: Bytes)
    requires ns != [] && GetNo(s) == (ns[0], true, tail) && GetNos(tail, |ns| - 1) == (ns[1..], true, rest)
    ensures GetNos(s, |ns|) == (ns, true, rest)
  {
    assert [ns[0]] + ns[1..] == ns;
  }

  /** What getconf() reads is what putconf() wrote, whatever an older and longer file leaves
      behind it, if and only if the case map is not a blank. */
  lemma ConfBackIff(c: Conf, rest: Bytes)
    requires Fits(c)
    ensures GetConf(Text(c) + rest) == Known(c) <==> c.casemap != SPACE
  {
    if c.casemap == SPACE {
      NeverBlank(Text(c) + rest);
    } else {
      ConfBack(c, rest);
    }
  }

  lemma {:induction false} SkipsBlanks(s: Bytes)
    ensures SkipBlanks(s) != [] ==> SkipBlanks(s)[0] != SPACE
  {
    if s != [] && s[0] == SPACE {
      SkipsBlanks(s[1..]);
    }
  }

  lemma NeverBlank(s: Bytes)
    ensures GetConf(s).Known? ==> GetConf(s).conf.casemap != SPACE
  {
    if |s| >= 3 {
      SkipsBlanks(GetNos(s[3..], 3).2);
    }
  }

  lemma ConfBack(c: Conf, rest: Bytes)
    requires Fits(c) && c.casemap != SPACE
    ensures GetConf(Text(c) + rest) == Known(c)
  {
    var u := PutNo(c.used[0]) + (Spaced(c.used[1..]) + ([NEWLINE] + rest));
    var b := Spaced(Behind(c)) + ([NEWLINE] + u);
    TextParts(c, rest);
    CutAfter(MAGIC, Spaced(Before(c)) + ([SPACE, c.casemap] + b));
    SizesBack(c, b);
    TagsBack(c, u);
    UsedLineBack(c, rest);
  }

  lemma SizesBack(c: Conf, b: Bytes)
    requires Fits(c) && c.casemap != SPACE
    ensures GetSizes(Spaced(Before(c)) + ([SPACE, c.casemap] + b), |Before(c)|) == GetTags(Before(c), c.casemap, b)
  {
    var m := [SPACE, c.casemap] + b;
    NumbersBack(Before(c), m);
    assert m[1..] == [c.casemap] + b && m[1..][1..] == b;
    assert SkipBlanks(m) == SkipBlanks(m[1..]) == m[1..];
  }

  lemma TagsBack(c: Conf, u: Bytes)
    requires Fits(c)
    ensures GetTags(Before(c), c.casemap, Spaced(Behind(c)) + ([NEWLINE] + u))
            == GetUsed(Before(c), c.casemap, Behind(c), u, |c.used|)
  {
    NumbersBack(Behind(c), [NEWLINE] + u);
    assert ([NEWLINE] + u)[1..] == u;
  }

  lemma UsedLineBack(c: Conf, rest: Bytes)
    requires Fits(c)
    ensures GetUsed(Before(c), c.casemap, Behind(c),
                    PutNo(c.used[0]) + (Spaced(c.used[1..]) + ([NEWLINE] + rest)), |c.used|) == Known(c)
  {
    UsedBack(c.used, [NEWLINE] + rest);
    MadeBack(c);
  }

  lemma MadeBack(c: Conf)
    requires Fits(c)
    ensures Made(Before(c), c.casemap, Behind(c), c.used) == c
  {
    assert Behind(c)[4..] == c.bytemap;
    forall i | 0 <= i < SOF ensures ToInt(c.bytemap[i]) == c.bytemap[i] {
      assert c.bytemap[i] in c.bytemap;
    }
    assert ToInts(c.bytemap) == c.bytemap;
  }

  lemma TextParts(c: Conf, rest: Bytes)
    requires c.used != []
    ensures Text(c) + rest == MAGIC + (Spaced(Before(c)) + ([SPACE, c.casemap] + (Spaced(Behind(c)) + ([NEWLINE]
      + (PutNo(c.used[0]) + (Spaced(c.used[1..]) + ([NEWLINE] + rest)))))))
  {
    var t1 := Spaced(c.used[1..]) + [NEWLINE];
    var t2 := PutNo(c.used[0]) + t1;
    var t3 := [NEWLINE] + t2;
    var t4 := Spaced(Behind(c)) + t3;
    var t5 := [SPACE, c.casemap] + t4;
    var t6 := Spaced(Before(c)) + t5;
    Grouped(MAGIC, t6, rest);
    Grouped(Spaced(Before(c)), t5, rest);
    Grouped([SPACE, c.casemap], t4, rest);
    Grouped(Spaced(Behind(c)), t3, rest);
    Grouped([NEWLINE], t2, rest);
    Grouped(PutNo(c.used[0]), t1, rest);
    Grouped(Spaced(c.used[1..]), [NEWLINE], rest);
  }

  lemma CutAfter(a: Bytes, b: Bytes)
    ensures (a + b)[..|a|] == a && (a + b)[|a|..] == b
  {
  }

  // ----- The functions themselves -----

  lemma {:induction false} SpacedOneMore(ns: seq<int>, n: int)
    ensures Spaced(ns + [n]) == Spaced(ns) + ([SPACE] + PutNo(n))
  {
    if ns == [] {
      assert [n][1..] == [] && ns + [n] == [n];
      assert [SPACE] + PutNo(n) + [] == [] + ([SPACE] + PutNo(n));
    } else {
      SpacedOneMore(ns[1..], n);
      assert (ns + [n])[1..] == ns[1..] + [n];
      Grouped([SPACE] + PutNo(ns[0]), Spaced(ns[1..]), [SPACE] + PutNo(n));
    }
  }

  /** A file opened for reading or writing, and the error flag of the function at work on it. */
  class DirFile {
    var input: Bytes   // what is still to be read
    var output: Bytes  // what has been written
    var err: bool

    constructor (contents: Bytes)
      ensures input == contents && output == [] && !err
    {
      input, output, err := contents, [], false;
    }

    /** fprintf(f, " %ld", n) for each of some numbers. */
    method PutSpaced(ns: seq<int>)
      modifies `output
      ensures output == old(output) + Spaced(ns)
    {
      for i := 0 to |ns|
        invariant output == old(output) + Spaced(ns[..i])
      {
        assert ns[..i + 1] == ns[..i] + [ns[i]];
        SpacedOneMore(ns[..i], ns[i]);
        Grouped(old(output), Spaced(ns[..i]), [SPACE] + PutNo(ns[i]));
        output := output + ([SPACE] + PutNo(ns[i]));
      }
      assert ns[..|ns|] == ns;
    }

    /** The second line: a blank after each number but the last. */
    method PutUsed(used: seq<int>)
      requires used != []
      modifies `output
      ensures output == old(output) + (PutNo(used[0]) + (Spaced(used[1..]) + [NEWLINE]))
    {
      output := output + PutNo(used[0]);
      PutSpaced(used[1..]);
      output := output + [NEWLINE];
      Grouped(old(output) + PutNo(used[0]), Spaced(used[1..]), [NEWLINE]);
      Grouped(old(output), PutNo(used[0]), Spaced(used[1..]) + [NEWLINE]);
    }

    /** putconf() */
    method Putconf(c: Conf)
      requires Fits(c)
      modifies `output
      ensures output == old(output) + Text(c)
    {
      output := output + MAGIC;
      PutSpaced(Before(c));
      output := output + [SPACE, c.casemap];
      PutSpaced(Behind(c));
      output := output + [NEWLINE];
      PutUsed(c.used);
      Regrouped(old(output), c);
    }

    /** while ((c = getc(f)) == ' '), with c put back. */
    method SkipSpaces()
      modifies `input
      ensures input == SkipBlanks(old(input)) && (input != [] ==> input[0] != SPACE)
    {
      while input != [] && input[0] == SPACE
        invariant SkipBlanks(input) == SkipBlanks(old(input))
        decreases |input|
      {
        input := input[1..];
      }
    }

    /** getno() */
    method Getno() returns (n: int)
      modifies `input, `err
      ensures var (value, ok, rest) := GetNo(old(input)); n == value && err == (old(err) || !ok) && input == rest
    {
      SkipSpaces();
      if input == [] {
        err := true;
        return 0;
      }
      if input[0] == NEWLINE {
        input, err := input[1..], true;
        return 0;
      }
      var getbuf := GetWord();
      if input == [] {
        err := true;
      }
      if !IsNumber(getbuf) {
        err := true;
      }
      return Atol(getbuf);
    }

    /** The characters of a number, as many as the buffer holds. */
    method GetWord() returns (getbuf: Bytes)
      requires input != [] && input[0] !in {SPACE, NEWLINE}
      modifies `input
      ensures var n := 1 + Run(old(input)[1..]); getbuf == Kept(old(input)[..n]) && input == old(input)[n..]
    {
      var t := input;
      getbuf := [t[0]];
      var i := 1;
      while i < |t| && t[i] !in {SPACE, NEWLINE}
        invariant 1 <= i <= |t| && InWord(t, i, getbuf)
      {
        WordFurther(t, i, getbuf);
        if |getbuf| < MAXN {
          getbuf := getbuf + [t[i]];
        }
        i := i + 1;
      }
      input := t[i..];
    }

    method GetnoList(n: nat) returns (ns: seq<int>)
      modifies `input, `err
      ensures var (values, ok, rest) := GetNos(old(input), n); ns == values && err == (old(err) || !ok) && input == rest
      decreases n
    {
      if n == 0 {
        return [];
      }
      var x := Getno();
      var xs := GetnoList(n - 1);
      return [x] + xs;
    }

    /** getconf(), which reads on after an error and fails at the end; `mine` is the byte map of
        this machine. */
    method Getconf(mine: seq<int>) returns (r: ConfRead)
      requires !err
      modifies `input, `err
      ensures old(input) == [] ==> r == Known(Conf(120011, 9, 67, 0x80, 0x7F, 24, mine, seq(11, _ => 0)))
      ensures old(input) != [] ==> r == GetConf(old(input))
    {
      if input == [] {
        return Known(Conf(DEFSIZE, 9, DEFCASE, TAGENB, TAGMASK, TAGSHIFT, mine, seq(1 + NMEMORY, _ => 0)));
      }
      ghost var all := input;
      ReadMagic();
      ghost var sizes := input;
      var a := GetnoList(3);
      if a[0] != VERSION {
        err := true;
      }
      SkipSpaces();
      var c := Getc();
      ghost var tags := input;
      var b := GetnoList(4 + SOF);
      if ToInt(b[3]) != SOF {
        err := true;
      }
      Newline();
      ghost var used := input;
      var u := GetnoList(1 + NMEMORY);
      Newline();
      if err {
        return Bad;
      }
      return Known(Conf(a[1], ToChar(a[2]), c as Byte, b[0], b[1], ToInt(b[2]), ToInts(b[4..]), u));
    }

    method ReadMagic()
      modifies `input, `err
      ensures err == (old(err) || |old(input)| < 3 || old(input)[..3] != MAGIC)
      ensures !err ==> input == old(input)[3..]
    {
      var d := Getc();
      if d != 100 {
        err := true;
        return;
      }
      var b := Getc();
      if b != 98 {
        err := true;
        return;
      }
      var z := Getc();
      if z != 122 {
        err := true;
      }
    }

    /** if (getc(df) != '\n') err = -1 */
    method Newline()
      modifies `input, `err
      ensures err == (old(err) || old(input) == [] || old(input)[0] != NEWLINE)
      ensures old(input) != [] ==> input == old(input)[1..]
    {
      var c := Getc();
      if c != 10 {
        err := true;
      }
    }

    /** getc(f) */
    method Getc() returns (c: int)
      modifies `input
      ensures if old(input) == [] then c == -1 && input == [] else c == old(input)[0] as int && input == old(input)[1..]
    {
      if input == [] {
        return -1;
      }
      c, input := input[0] as int, input[1..];
    }
  }

  /** The loop of getno() has read i characters of a word. */
  predicate InWord(t: Bytes, i: nat, getbuf: Bytes) {
    1 <= i <= |t| && i + Run(t[i..]) == 1 + Run(t[1..]) && getbuf == Kept(t[..i])
  }

  lemma WordFurther(t: Bytes, i: nat, getbuf: Bytes)
    requires InWord(t, i, getbuf) && i < |t| && t[i] !in {SPACE, NEWLINE}
    ensures InWord(t, i + 1, if |getbuf| < MAXN then getbuf + [t[i]] else getbuf)
  {
    RunFurther(t, i);
    KeptFurther(t, i);
  }

  lemma RunFurther(t: Bytes, i: nat)
    requires i < |t| && t[i] !in {SPACE, NEWLINE}
    ensures Run(t[i..]) == 1 + Run(t[i + 1..])
  {
    assert t[i..][1..] == t[i + 1..];
  }

  lemma KeptFurther(t: Bytes, i: nat)
    requires i < |t|
    ensures |Kept(t[..i])| == if i <= MAXN then i else MAXN
    ensures Kept(t[..i + 1]) == if i < MAXN then Kept(t[..i]) + [t[i]] else Kept(t[..i])
  {
    assert t[..i + 1] == t[..i] + [t[i]];
  }

  /** strspn(s, "-1234567890") == strlen(s) */
  predicate IsNumber(s: Bytes)
    ensures IsNumber(s) <==> Numeric(s)
  {
    s == [] || ((s[0] == MINUS || IsDigit(s[0])) && IsNumber(s[1..]))
  }

  lemma Regrouped(was: Bytes, c: Conf)
    requires c.used != []
    ensures was + MAGIC + Spaced(Before(c)) + [SPACE, c.casemap] + Spaced(Behind(c)) + [NEWLINE]
      + (PutNo(c.used[0]) + (Spaced(c.used[1..]) + [NEWLINE])) == was + Text(c)
  {
    var t2 := PutNo(c.used[0]) + (Spaced(c.used[1..]) + [NEWLINE]);
    var t3 := [NEWLINE] + t2;
    var t4 := Spaced(Behind(c)) + t3;
    var t5 := [SPACE, c.casemap] + t4;
    var w1 := was + MAGIC;
    var w2 := w1 + Spaced(Before(c));
    var w3 := w2 + [SPACE, c.casemap];
    Grouped(w3 + Spaced(Behind(c)), [NEWLINE], t2);
    Grouped(w3, Spaced(Behind(c)), t3);
    Grouped(w2, [SPACE, c.casemap], t4);
    Grouped(w1, Spaced(Before(c)), t5);
    Grouped(was, MAGIC, Spaced(Before(c)) + t5);
  }
}
