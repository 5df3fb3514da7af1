/** The two ends of the line in rzsz/zm.c: the static variables of the sender and receiver as
    fields, their loops as methods, proved against the functions of Zdle and Subpackets. The
    line is the sequence of bytes given to func_write, or still to come from func_read. */
module ZmLine {
  import opened Basics
  import Crc
  import opened Zdle
  import opened Subpackets
  import opened Headers

  class ZSender {
    var zctlesc: bool
    var turboEscape: bool
    var txfcs32: bool
    var znulls: nat
    const table: array<Rule>  // zsendline_tab
    var lastsent: Byte
    var line: Bytes

    function Settings(): Escapes
      reads `zctlesc, `turboEscape
    {
      Escapes(zctlesc, turboEscape)
    }

    /** The table is the one for the current settings. */
    ghost predicate Ready()
      reads `zctlesc, `turboEscape, table
    {
      table.Length == 256 && forall c: Byte :: table[c as int] == RuleOf(Settings(), c)
    }

    constructor (ctl: bool, turbo: bool)
      ensures Ready() && Settings() == Escapes(ctl, turbo) && line == [] && lastsent == 0
      ensures fresh(table)
    {
      zctlesc, turboEscape, lastsent, line := ctl, turbo, 0, [];
      txfcs32, znulls := false, 0;
      table := new Rule[256](_ => Plain);
      new;
      ZsendlineInit();
    }

    /** zsendline_init() */
    method ZsendlineInit()
      requires table.Length == 256
      modifies table
      ensures Ready()
    {
      var i: Byte := 0;
      while i < 255
        invariant forall c: Byte :: c < i ==> table[c as int] == RuleOf(Settings(), c)
        decreases 255 - i as int
      {
        table[i as int] := RuleOf(Settings(), i);
        i := i + 1;
      }
      table[255] := RuleOf(Settings(), 255);
    }

    /** zsendline() */
    method Zsendline(c: Byte)
      requires Ready()
      modifies `line, `lastsent
      ensures line == old(line) + EncodeByte(Settings(), old(lastsent), c)
      ensures lastsent == LastAfter(Settings(), old(lastsent), c)
    {
      match table[c as int] {
        case Plain =>
          line, lastsent := line + [c], c;
        case Always =>
          line := line + [ZDLE];
          line, lastsent := line + [Flip(c)], Flip(c);
        case AfterAt =>
          if lastsent & 0x7F != AT {
            line, lastsent := line + [c], c;
          } else {
            line := line + [ZDLE];
            line, lastsent := line + [Flip(c)], Flip(c);
          }
      }
    }

    /** The inner loop of zsendline_s(): how far the table lets bytes pass. */
    method RunEnd(s: Bytes, i: nat) returns (t: nat)
      requires Ready() && i <= |s|
      ensures i <= t <= |s| && (t < |s| ==> RuleOf(Settings(), s[t]) != Plain)
      ensures forall j :: i <= j < t ==> RuleOf(Settings(), s[j]) == Plain
    {
      t := i;
      while t != |s| && table[s[t] as int] == Plain
        invariant i <= t <= |s|
        invariant forall j :: i <= j < t ==> RuleOf(Settings(), s[j]) == Plain
        decreases |s| - t
      {
        t := t + 1;
      }
    }

    /** What may pass is written at once. */
    method PlainRun(s: Bytes, i: nat, ghost last: Byte, ghost was: Bytes) returns (t: nat)
      requires Ready() && SentSoFar(Settings(), last, was, s, i, line, lastsent)
      modifies `line, `lastsent
      ensures i <= t <= |s| && (t < |s| ==> RuleOf(Settings(), s[t]) != Plain)
      ensures SentSoFar(Settings(), last, was, s, t, line, lastsent)
    {
      t := RunEnd(s, i);
      RunIsPlain(Settings(), lastsent, s[i..t]);
      if t != i {
        line, lastsent := line + s[i..t], s[t - 1];
      }
      Extend(Settings(), last, was, s, i, t, line, lastsent);
    }

    /** One byte of `s` through zsendline(). */
    method SendOneOf(s: Bytes, i: nat, ghost last: Byte, ghost was: Bytes)
      requires Ready() && i < |s| && SentSoFar(Settings(), last, was, s, i, line, lastsent)
      modifies `line, `lastsent
      ensures SentSoFar(Settings(), last, was, s, i + 1, line, lastsent)
    {
      OneByte(Settings(), lastsent, s, i);
      Zsendline(s[i]);
      Extend(Settings(), last, was, s, i, i + 1, line, lastsent);
    }

    /** zsendline_s(). It writes the bytes and leaves the lastsent that calling zsendline on
        each byte would. */
    method ZsendlineS(s: Bytes)
      requires Ready()
      modifies `line, `lastsent
      ensures line == old(line) + Encode(Settings(), old(lastsent), s)
      ensures lastsent == LastOf(Settings(), old(lastsent), s)
    {
      var i := 0;
      while i != |s|
        invariant SentSoFar(Settings(), old(lastsent), old(line), s, i, line, lastsent)
        decreases |s| - i
      {
        i := PlainRun(s, i, old(lastsent), old(line));
        if i != |s| {
          SendOneOf(s, i, old(lastsent), old(line));
          i := i + 1;
        }
      }
      assert s[..i] == s;
    }

    /** zsdata(): the loop tests its length only after the first byte. */
    method Zsdata(crctab: Crc.Table16, buf: Bytes, frameend: Byte)
      requires Ready() && buf != []
      modifies `line, `lastsent
      ensures line == old(line) + Sent(Fcs16(crctab), Settings(), old(lastsent), buf, frameend)
        + if frameend == ZCRCW then [XON] else []
    {
      var crc := SendChecked(crctab, buf);
      ghost var body := Encode(Settings(), old(lastsent), buf);
      EndData(frameend);
      FoldConcat(Fcs16(crctab), buf, [frameend], 0);
      crc := Crc.Upd16(crctab, frameend, crc);
      ghost var check := Crc.Trailer16(crctab, crc);
      ghost var tail := Encode(Settings(), lastsent, check);
      SendSum(crctab, crc);
      Regroup(old(line), body, [ZDLE, frameend], tail);
      if frameend == ZCRCW {
        line := line + [XON];
      }
    }

    /** The frame end goes out behind a ZDLE, itself not escaped. */
    method EndData(frameend: Byte)
      modifies `line
      ensures line == old(line) + [ZDLE, frameend]
    {
      line := line + [ZDLE];
      line := line + [frameend];
    }

    /** The loop of zsdata. */
    method SendChecked(crctab: Crc.Table16, buf: Bytes) returns (crc: bv16)
      requires Ready() && buf != []
      modifies `line, `lastsent
      ensures line == old(line) + Encode(Settings(), old(lastsent), buf)
      ensures lastsent == LastOf(Settings(), old(lastsent), buf)
      ensures crc == Fold(Fcs16(crctab), buf, 0)
    {
      crc := 0;
      var i := 0;
      while true
        invariant 0 <= i < |buf|
        invariant SentSoFar(Settings(), old(lastsent), old(line), buf, i, line, lastsent)
        invariant crc == Fold(Fcs16(crctab), buf[..i], 0)
        decreases |buf| - i
      {
        SendOneOf(buf, i, old(lastsent), old(line));
        FoldStep(Fcs16(crctab), buf, i);
        crc := Crc.Upd16(crctab, buf[i], crc);
        i := i + 1;
        if i == |buf| {
          break;
        }
      }
      assert buf[..i] == buf;
    }

    /** crc = updcrc(0, updcrc(0, crc)), then its two bytes. */
    method SendSum(crctab: Crc.Table16, crc: bv16)
      requires Ready()
      modifies `line, `lastsent
      ensures line == old(line) + Encode(Settings(), old(lastsent), Crc.Trailer16(crctab, crc))
      ensures lastsent == LastOf(Settings(), old(lastsent), Crc.Trailer16(crctab, crc))
    {
      var sum := Crc.Trailer16(crctab, crc);
      TwoBytes(Settings(), old(lastsent), sum[0], sum[1]);
      assert sum == [sum[0], sum[1]];
      Zsendline(sum[0]);
      Zsendline(sum[1]);
    }

    /** The check that zsda32 computes over data and frame end. */
    static method Sum32(buf: Bytes, frameend: Byte) returns (crc: bv32)
      ensures crc == Fold(Fcs32(), buf + [frameend], Crc.INIT32)
    {
      crc := Crc.INIT32;
      for i := 0 to |buf|
        invariant crc == Fold(Fcs32(), buf[..i], Crc.INIT32)
      {
        FoldStep(Fcs32(), buf, i);
        crc := Fcs32().upd(buf[i], crc);
      }
      assert buf[..|buf|] == buf;
      FoldConcat(Fcs32(), buf, [frameend], Crc.INIT32);
      crc := Fcs32().upd(frameend, crc);
    }

    /** zsda32(): any length, the data through zsendline_s. */
    method Zsda32(buf: Bytes, frameend: Byte)
      requires Ready()
      modifies `line, `lastsent
      ensures line == old(line) + Sent(Fcs32(), Settings(), old(lastsent), buf, frameend)
        + if frameend == ZCRCW then [XON] else []
    {
      ZsendlineS(buf);
      ghost var body := Encode(Settings(), old(lastsent), buf);
      EndData(frameend);
      var crc := Sum32(buf, frameend);
      var check := Fcs32().trailer(crc);
      ghost var tail := Encode(Settings(), lastsent, check);
      SendCheck(check);
      Regroup(old(line), body, [ZDLE, frameend], tail);
      if frameend == ZCRCW {
        line := line + [XON];
      }
    }

    /** The bytes of the inverted check: zsda32 sends those that are no control characters
        past the table. */
    method SendCheck(t: Bytes)
      requires Ready()
      modifies `line, `lastsent
      ensures line == old(line) + Encode(Settings(), old(lastsent), t)
      ensures lastsent == LastOf(Settings(), old(lastsent), t)
    {
      for i := 0 to |t|
        invariant SentSoFar(Settings(), old(lastsent), old(line), t, i, line, lastsent)
      {
        OneByte(Settings(), lastsent, t, i);
        if !IsControl(t[i]) {
          line, lastsent := line + [t[i]], t[i];
        } else {
          Zsendline(t[i]);
        }
        Extend(Settings(), old(lastsent), old(line), t, i, i + 1, line, lastsent);
      }
      assert t[..|t|] == t;
    }

    /** zsbhdr() */
    method Zsbhdr(crctab: Crc.Table16, typ: Byte, hdr: Bytes)
      requires Ready() && |hdr| == 4
      modifies `line, `lastsent
      ensures line == old(line) + (if typ == ZDATA then Nulls(znulls) else [])
        + HeaderSent(if txfcs32 then Bin32 else Bin16, crctab, Settings(), old(lastsent), typ, hdr)
    {
      if typ == ZDATA {
        SendNulls();
      }
      SendBinary(crctab, typ, hdr);
    }

    /** The rest of zsbhdr(). */
    method SendBinary(crctab: Crc.Table16, typ: Byte, hdr: Bytes)
      requires Ready() && |hdr| == 4
      modifies `line, `lastsent
      ensures line
              == old(line) + HeaderSent(if txfcs32 then Bin32 else Bin16, crctab, Settings(), old(lastsent), typ, hdr)
    {
      ghost var start := line;
      SendPads();
      if txfcs32 {
        Zsbh32(typ, hdr);
        AfterPads(start, Body(Bin32, crctab, Settings(), old(lastsent), typ, hdr));
      } else {
        SendHeader16(crctab, typ, hdr);
        AfterPads(start, Body(Bin16, crctab, Settings(), old(lastsent), typ, hdr));
      }
    }

    method SendPads()
      modifies `line
      ensures line == old(line) + [ZPAD, ZDLE]
    {
      line := line + [ZPAD];
      line := line + [ZDLE];
    }

    method SendNulls()
      modifies `line
      ensures line == old(line) + Nulls(znulls)
    {
      var n := znulls;
      while n > 0
        invariant 0 <= n <= znulls && line == old(line) + Nulls(znulls - n)
      {
        n := n - 1;
        line := line + [0];
      }
    }

    /** The rest of a 16-bit header. */
    method SendHeader16(crctab: Crc.Table16, typ: Byte, hdr: Bytes)
      requires Ready() && |hdr| == 4
      modifies `line, `lastsent
      ensures line == old(line) + Body(Bin16, crctab, Settings(), old(lastsent), typ, hdr)
    {
      line := line + [ZBIN];
      var crc := SendFields(Fcs16(crctab), typ, hdr);
      Joined(old(line), ZBIN, Settings(), old(lastsent), [typ] + hdr, Crc.Trailer16(crctab, crc));
      SendSum(crctab, crc);
    }

    /** Type and position, in and out of the check. */
    method SendFields<C>(f: Fcs<C>, typ: Byte, hdr: Bytes) returns (crc: C)
      requires Ready() && |hdr| == 4
      modifies `line, `lastsent
      ensures line == old(line) + Encode(Settings(), old(lastsent), [typ] + hdr)
      ensures lastsent == LastOf(Settings(), old(lastsent), [typ] + hdr)
      ensures crc == Fold(f, [typ] + hdr, f.init)
    {
      var s := [typ] + hdr;
      assert s[..0] == [];
      SendOneOf(s, 0, old(lastsent), old(line));
      FoldStep(f, s, 0);
      crc := f.upd(typ, f.init);
      for n := 0 to 4
        invariant SentSoFar(Settings(), old(lastsent), old(line), s, n + 1, line, lastsent)
        invariant crc == Fold(f, s[..n + 1], f.init)
      {
        SendOneOf(s, n + 1, old(lastsent), old(line));
        FoldStep(f, s, n + 1);
        crc := f.upd(hdr[n], crc);
      }
      assert s[..5] == s;
    }

    /** zsbh32() */
    method Zsbh32(typ: Byte, hdr: Bytes)
      requires Ready() && |hdr| == 4
      modifies `line, `lastsent
      ensures line == old(line) + ([ZBIN32] + Encode(Settings(), old(lastsent), Checked(Fcs32(), typ, hdr)))
    {
      line := line + [ZBIN32];
      var crc := SendFields(Fcs32(), typ, hdr);
      var check := Fcs32().trailer(crc);
      Joined(old(line), ZBIN32, Settings(), old(lastsent), [typ] + hdr, check);
      SendCheck(check);
    }

    /** zshhdr(): the whole header is put together and written at once, past lastsent. */
    method Zshhdr(crctab: Crc.Table16, typ: Byte, hdr: Bytes)
      requires |hdr| == 4
      modifies `line
      ensures line == old(line) + HeaderSent(Hex, crctab, Settings(), lastsent, typ, hdr)
    {
      var digits := HexFields(crctab, typ & 0x7F, hdr);
      var s := [ZPAD, ZPAD, ZDLE] + ([ZHEX] + digits);
      s := s + [CR, LF | 0x80];
      if typ != ZFIN && typ != ZACK {
        s := s + [XON];
      }
      line := line + s;
    }

    static method HexFields(crctab: Crc.Table16, typ: Byte, hdr: Bytes) returns (s: Bytes)
      requires |hdr| == 4
      ensures s == PutHexes(Checked(Fcs16(crctab), typ, hdr))
    {
      var f := Fcs16(crctab);
      ghost var fields := [typ] + hdr;
      s := PutHex(typ);
      FoldStep(f, fields, 0);
      assert fields[..0] == [] && fields[..1] == [typ] && PutHexes([typ]) == PutHex(typ) + PutHexes([typ][1..]);
      var crc := f.upd(typ, f.init);
      for n := 0 to 4
        invariant s == PutHexes(fields[..n + 1])
        invariant crc == Fold(f, fields[..n + 1], f.init)
      {
        PutOneMore(fields, n + 1);
        s := s + PutHex(hdr[n]);
        FoldStep(f, fields, n + 1);
        crc := f.upd(hdr[n], crc);
      }
      assert fields[..5] == fields;
      var sum := Crc.Trailer16(crctab, crc);
      ghost var all := fields + sum;
      PutOneMore(all, 5);
      PutOneMore(all, 6);
      assert all[..5] == fields && all[..7] == all;
      s := s + PutHex(sum[0]);
      s := s + PutHex(sum[1]);
    }
  }

  lemma Joined(start: Bytes, ind: Byte, e: Escapes, last: Byte, a: Bytes, b: Bytes)
    ensures start + [ind] + Encode(e, last, a) + Encode(e, LastOf(e, last, a), b)
            == start + ([ind] + Encode(e, last, a + b))
  {
    EncodeConcat(e, last, a, b);
    GroupedRight(start, [ind], Encode(e, last, a), Encode(e, LastOf(e, last, a), b));
  }

  lemma AfterPads(start: Bytes, body: Bytes)
    ensures start + [ZPAD, ZDLE] + body == start + ([ZPAD, ZDLE] + body + [])
  {
  }

  lemma PutOneMore(data: Bytes, n: nat)
    requires n < |data|
    ensures PutHexes(data[..n + 1]) == PutHexes(data[..n]) + PutHex(data[n])
  {
    assert data[..n + 1] == data[..n] + [data[n]];
    PutHexesConcat(data[..n], data[n]);
  }

  lemma {:induction false} PutHexesConcat(data: Bytes, c: Byte)
    ensures PutHexes(data + [c]) == PutHexes(data) + PutHex(c)
  {
    if data == [] {
      assert data + [c] == [c] && [c][1..] == [];
    } else {
      assert (data + [c])[1..] == data[1..] + [c];
      PutHexesConcat(data[1..], c);
    }
  }

  /** The first `i` bytes of `s` have been added to the line. */
  ghost predicate SentSoFar(e: Escapes, last: Byte, was: Bytes, s: Bytes, i: int, line: Bytes, lastsent: Byte) {
    0 <= i <= |s| && line == was + Encode(e, last, s[..i]) && lastsent == LastOf(e, last, s[..i])
  }

  lemma Regroup(was: Bytes, body: Bytes, end: Bytes, tail: Bytes)
    ensures was + body + end + tail == was + (body + end + tail)
  {
  }

  lemma Extend(e: Escapes, last: Byte, was: Bytes, s: Bytes, i: nat, t: nat, line: Bytes, lastsent: Byte)
    requires i <= t <= |s|
    requires line == was + Encode(e, last, s[..i]) + Encode(e, LastOf(e, last, s[..i]), s[i..t])
    requires lastsent == LastOf(e, LastOf(e, last, s[..i]), s[i..t])
    ensures SentSoFar(e, last, was, s, t, line, lastsent)
  {
    assert s[..t] == s[..i] + s[i..t];
    EncodeConcat(e, last, s[..i], s[i..t]);
  }

  lemma OneByte(e: Escapes, last: Byte, s: Bytes, i: nat)
    requires i < |s|
    ensures Encode(e, last, s[i..i + 1]) == EncodeByte(e, last, s[i])
    ensures LastOf(e, last, s[i..i + 1]) == LastAfter(e, last, s[i])
  {
    assert s[i..i + 1] == [s[i]] && [s[i]][1..] == [];
    assert EncodeByte(e, last, s[i]) + [] == EncodeByte(e, last, s[i]);
  }

  lemma TwoBytes(e: Escapes, last: Byte, a: Byte, b: Byte)
    ensures Encode(e, last, [a, b]) == EncodeByte(e, last, a) + EncodeByte(e, LastAfter(e, last, a), b)
    ensures LastOf(e, last, [a, b]) == LastAfter(e, LastAfter(e, last, a), b)
  {
    assert [a, b][0..1] == [a] && [a, b][1..2] == [b] && [a, b][1..] == [b];
    OneByte(e, LastAfter(e, last, a), [a, b], 1);
  }

  /** A run of plain bytes is sent as it is. */
  lemma {:induction false} RunIsPlain(e: Escapes, last: Byte, run: Bytes)
    requires forall i :: 0 <= i < |run| ==> RuleOf(e, run[i]) == Plain
    ensures Encode(e, last, run) == run
    ensures LastOf(e, last, run) == if run == [] then last else run[|run| - 1]
    decreases |run|
  {
    if run != [] {
      RunIsPlain(e, run[0], run[1..]);
    }
  }

  lemma FoldStep<C>(f: Fcs<C>, buf: Bytes, i: nat)
    requires i < |buf|
    ensures Fold(f, buf[..i + 1], f.init) == f.upd(buf[i], Fold(f, buf[..i], f.init))
  {
    assert buf[..i + 1] == buf[..i] + [buf[i]];
    FoldConcat(f, buf[..i], [buf[i]], f.init);
  }

  class ZReceiver {
    var zctlesc: bool
    var input: Bytes

    constructor (ctl: bool, line: Bytes)
      ensures zctlesc == ctl && input == line
    {
      zctlesc, input := ctl, line;
    }

    /** zdlread() */
    method Zdlread() returns (r: Got)
      modifies this`input
      ensures (r, input) == Read(zctlesc, old(input))
    {
      while true
        invariant Read(zctlesc, old(input)) == Read(zctlesc, input)
        decreases |input|
      {
        if input == [] {
          return Timeout;
        }
        var c := input[0];
        input := input[1..];
        if !IsControl(c) {
          return Data(c);
        }
        if c == ZDLE {
          r := Zdlread2();
          return;
        }
        if !Ignored(zctlesc, c) {
          return Data(c);
        }
      }
      return Bad;
    }

    /** The part of zdlread2() after a ZDLE. */
    method Zdlread2() returns (r: Got)
      modifies this`input
      ensures (r, input) == ReadEscaped(zctlesc, old(input), 3)
    {
      var n := 3;
      while true
        invariant 0 <= n <= 3
        invariant ReadEscaped(zctlesc, old(input), 3) == ReadEscaped(zctlesc, input, n)
        decreases |input|
      {
        if input == [] {
          return Timeout;
        }
        var c := input[0];
        input := input[1..];
        if c == CAN {
          if n == 0 {
            return Cancel;
          }
          n := n - 1;
        } else if IsEnd(c) {
          return End(c);
        } else if c == ZRUB0 {
          return Data(0x7F);
        } else if c == ZRUB1 {
          return Data(0xFF);
        } else if Ignored(zctlesc, c) {
          n := 3;
        } else if c & 0x60 == 0x40 {
          return Data(Flip(c));
        } else {
          return Bad;
        }
      }
      return Bad;
    }

    /** The check bytes after a frame end; what came in their place, if anything did. */
    method CheckBytes<C>(f: Fcs<C>, ghost data: Bytes, crc: C, end: Byte) returns (sum: C, stop: Option<Got>)
      modifies `input
      ensures |input| <= |old(input)|
      ensures stop.Some? ==> !stop.value.Data? && (stop.value.Timeout? || |input| < |old(input)|)
      ensures ReadCheck(f, zctlesc, data, crc, end, f.size, old(input)) ==
        if stop.None? then (if f.good(sum) then Packet(data, end) else Error, input)
        else Finish(f, zctlesc, data, sum, stop.value, input)
    {
      sum := crc;
      var n := f.size;
      while n > 0
        invariant |input| <= |old(input)|
        invariant ReadCheck(f, zctlesc, data, crc, end, f.size, old(input))
                  == ReadCheck(f, zctlesc, data, sum, end, n, input)
      {
        var c := Zdlread();
        if !c.Data? {
          return sum, Some(c);
        }
        sum := f.upd(c.b, sum);
        n := n - 1;
      }
      return sum, None;
    }

    /** The part of zrdata() and zrdat32() from the label crcfoo on; `stored` is what the
        buffer holds. */
    method Crcfoo<C>(f: Fcs<C>, ghost stored: Bytes, crc: C, got: Got) returns (r: Code)
      requires !got.Data?
      modifies `input
      ensures r == CodeOf(Finish(f, zctlesc, stored, crc, got, old(input)).0)
      ensures input == Finish(f, zctlesc, stored, crc, got, old(input)).1
      ensures Finish(f, zctlesc, stored, crc, got, old(input)).0.Packet?
              ==> Finish(f, zctlesc, stored, crc, got, old(input)).0.data == stored
    {
      var c, sum := got, crc;
      while c.End?
        invariant !c.Data?
        invariant Finish(f, zctlesc, stored, crc, got, old(input)) == Finish(f, zctlesc, stored, sum, c, input)
        decreases |input|, c.End?
      {
        var end := c.f;
        var stop;
        sum, stop := CheckBytes(f, stored, f.upd(end, sum), end);
        if stop.None? {
          return if f.good(sum) then Ended(end) else Damaged;
        }
        c := stop.value;
      }
      match c {
        case Cancel => return Cancelled;
        case Timeout => return NoReply;
        case Bad => return Damaged;
      }
    }

    /** zrdata() and zrdat32(): the bytes go into `buf`, at most one more than `length`. */
    method Zrdata<C>(f: Fcs<C>, buf: array<Byte>, length: nat) returns (r: Code, received: nat)
      requires length < buf.Length
      modifies `input, buf
      ensures var (packet, rest) := Receive(f, zctlesc, old(input), length);
        r == CodeOf(packet) && input == rest
        && (packet.Packet? ==> received == |packet.data| <= length + 1 && buf[..received] == packet.data)
        && (!packet.Packet? ==> received == 0)
      ensures buf[length + 1..] == old(buf[length + 1..])
    {
      var crc, i := f.init, 0;
      CollectedNone(f, zctlesc, input, length + 1);
      assert buf[..0] == [];
      while i <= length
        invariant 0 <= i <= length + 1
        invariant buf[length + 1..] == old(buf[length + 1..])
        invariant Collected(f, zctlesc, old(input), length + 1, buf[..i], crc, input)
      {
        ghost var done, left := buf[..i], input;
        var c := Zdlread();
        if !c.Data? {
          CollectedEnd(f, zctlesc, old(input), length, done, crc, left);
          r := Crcfoo(f, done, crc, c);
          return r, if r.Ended? then i else 0;
        }
        CollectedOne(f, zctlesc, old(input), length + 1, done, crc, left, c.b);
        buf[i] := c.b;
        crc := f.upd(c.b, crc);
        i := i + 1;
        assert buf[..i] == done + [c.b];
      }
      CollectedFull(f, zctlesc, old(input), length, buf[..i], crc, input);
      return Damaged, 0;
    }

    /** noxrd7() */
    method Noxrd7() returns (r: Got)
      modifies `input
      ensures (r, input) == Nox(zctlesc, old(input))
    {
      while true
        invariant Nox(zctlesc, old(input)) == Nox(zctlesc, input)
        decreases |input|
      {
        if input == [] {
          return Timeout;
        }
        var c := input[0] & 0x7F;
        input := input[1..];
        if c != XON && c != XOFF {
          if c == CR || c == LF || c == ZDLE || !zctlesc || !IsControl(c) {
            return Data(c);
          }
        }
      }
      return Bad;
    }

    /** zgethex(), zgeth1() */
    method Zgethex() returns (r: Got)
      modifies `input
      ensures (r, input) == ReadHex(zctlesc, old(input))
    {
      r := Noxrd7();
      if !r.Data? {
        return;
      }
      var n := Nibble(r.b);
      if n == None {
        return Bad;
      }
      r := Noxrd7();
      if !r.Data? {
        return;
      }
      var c := Nibble(r.b);
      if c == None {
        return Bad;
      }
      return Data((n.value << 4) + c.value);
    }

    method NextByte(hex: bool) returns (r: Got)
      modifies `input
      ensures (r, input) == ReadByte(hex, zctlesc, old(input))
    {
      if hex {
        r := Zgethex();
      } else {
        r := Zdlread();
      }
    }

    /** zrbhdr(), zrbhdr32() and zrhhdr() up to its line end: type, position and check, each
        byte into the running check and those of the position into `hdr` as they come. */
    method ReadFields<C>(f: Fcs<C>, form: Form, hdr: array<Byte>) returns (r: Outcome)
      requires hdr.Length == 4
      modifies `input, hdr
      ensures var (got, rest) := ReadHeader(f, form, zctlesc, old(input));
        input == rest && Reports(r, hdr[..], got)
    {
      var crc, typ, n: nat := f.init, 0, 0;
      ghost var s, done: Bytes := input, [];
      TookNone(f, form.Hex?, zctlesc, input, 5 + f.size);
      while n < 5 + f.size
        invariant n == |done| <= 5 + f.size
        invariant Took(f, form.Hex?, zctlesc, s, 5 + f.size, done, crc, input)
        invariant Stored(done, typ, hdr[..])
      {
        ghost var left := input;
        var c := NextByte(form.Hex?);
        if !c.Data? {
          TookPart(f, form, zctlesc, s, done, crc, left);
          return Nothing(c);
        }
        TookOne(f, form.Hex?, zctlesc, s, 5 + f.size, done, crc, left, c.b);
        typ := Keep(hdr, done, n, typ, c.b);
        crc := f.upd(c.b, crc);
        done := done + [c.b];
        n := n + 1;
      }
      FieldsRead(f, form, zctlesc, s, done, crc, input, typ, hdr[..]);
      r := if f.good(crc) then Frame(form, typ) else Nothing(Bad);
    }

    /** The first byte is the type, the next four the position. */
    static method Keep(hdr: array<Byte>, ghost done: Bytes, n: nat, typ: Byte, b: Byte) returns (t: Byte)
      requires hdr.Length == 4 && n == |done| && Stored(done, typ, hdr[..])
      modifies hdr
      ensures Stored(done + [b], t, hdr[..])
    {
      t := typ;
      if n == 0 {
        t := b;
      } else if n < 5 {
        hdr[n - 1] := b;
      }
    }

    /** zrhhdr() */
    method Zrhhdr(crctab: Crc.Table16, hdr: array<Byte>) returns (r: Outcome)
      requires hdr.Length == 4
      modifies `input, hdr
      ensures var (got, rest) := ReadForm(Hex, crctab, zctlesc, old(input));
        input == rest && Reports(r, hdr[..], got)
    {
      r := ReadFields(Fcs16(crctab), Hex, hdr);
      if r.Frame? && input != [] {
        var c := input[0];
        input := input[1..];
        if c & 0x7F == CR && input != [] {
          input := input[1..];
        }
      }
    }

    /** zgethdr(), goto by goto. */
    method Zgethdr(crctab: Crc.Table16, garbage: nat, hdr: array<Byte>) returns (r: Outcome)
      requires hdr.Length == 4
      modifies `input, hdr
      ensures var (got, rest) := Hunt(crctab, zctlesc, Again, garbage, 5, old(input));
        input == rest && Reports(r, hdr[..], got)
    {
      var at, maxGarbage, cancount := Again, garbage, 5;
      while true
        invariant Hunt(crctab, zctlesc, Again, garbage, 5, old(input))
                  == Hunt(crctab, zctlesc, at, maxGarbage, cancount, input)
        decreases |input|, if at.Again? then 0 else 1
      {
        match at {
          case Again =>
            if input == [] {
              return Nothing(Timeout);
            }
            var c := input[0];
            input := input[1..];
            if c == CAN {
              at := GotCan;
            } else if c & 0x7F == ZPAD {
              at, cancount := Splat, 5;
            } else {
              at := Agn2;
            }
          case GotCan =>
            cancount := cancount - 1;
            if cancount <= 0 {
              return Nothing(Cancel);
            }
            if input == [] {
              at := Again;
            } else {
              var c := input[0];
              input := input[1..];
              if c == ZCRCW {
                return Nothing(Bad);
              }
              if c == CAN {
                cancount := cancount - 1;
                if cancount <= 0 {
                  return Nothing(Cancel);
                }
                at := Again;
              } else {
                at := Agn2;
              }
            }
          case Agn2 =>
            maxGarbage := Less(maxGarbage);
            if maxGarbage == 0 {
              return Nothing(Bad);
            }
            at, cancount := Again, 5;
          case Splat =>
            var c := Noxrd7();
            if !c.Data? {
              return Nothing(c);
            }
            if c.b == ZDLE {
              at := Kind;
            } else if c.b != ZPAD {
              at := Agn2;
            }
          case Kind =>
            var c := Noxrd7();
            if !c.Data? {
              return Nothing(c);
            }
            if c.b == ZBIN {
              r := ReadFields(Fcs16(crctab), Bin16, hdr);
              return;
            } else if c.b == ZBIN32 {
              r := ReadFields(Fcs32(), Bin32, hdr);
              return;
            } else if c.b == ZHEX {
              r := Zrhhdr(crctab, hdr);
              return;
            } else if c.b == CAN {
              at := GotCan;
            } else {
              at := Agn2;
            }
        }
      }
      return Nothing(Bad);
    }
  }

  /** What zgethdr returns besides the four bytes of hdr. */
  datatype Outcome = Frame(form: Form, typ: Byte) | Nothing(code: Got)

  ghost predicate Reports(r: Outcome, hdr: Bytes, got: HeaderRead) {
    match got
    case Header(form, typ, bytes) => r == Frame(form, typ) && hdr == bytes
    case Failed(code) => r == Nothing(code)
  }

  /** `done` has been taken from `s`, with check `crc`, and `left` remains. */
  ghost predicate Took<C>(f: Fcs<C>, hex: bool, ctl: bool, s: Bytes, n: nat, done: Bytes, crc: C, left: Bytes) {
    |done| <= n && crc == Fold(f, done, f.init)
    && var (data, stop, rest) := Take(hex, ctl, left, n - |done|);
      Take(hex, ctl, s, n) == (done + data, stop, rest)
  }

  lemma TookNone<C>(f: Fcs<C>, hex: bool, ctl: bool, s: Bytes, n: nat)
    ensures Took(f, hex, ctl, s, n, [], f.init, s)
  {
    assert [] + Take(hex, ctl, s, n).0 == Take(hex, ctl, s, n).0;
  }

  lemma TookOne<C>(f: Fcs<C>, hex: bool, ctl: bool, s: Bytes, n: nat, done: Bytes, crc: C, left: Bytes, b: Byte)
    requires Took(f, hex, ctl, s, n, done, crc, left) && |done| < n && ReadByte(hex, ctl, left).0 == Data(b)
    ensures Took(f, hex, ctl, s, n, done + [b], f.upd(b, crc), ReadByte(hex, ctl, left).1)
  {
    var data := Take(hex, ctl, ReadByte(hex, ctl, left).1, n - |done| - 1).0;
    assert done + ([b] + data) == done + [b] + data;
    FoldConcat(f, done, [b], f.init);
  }

  lemma TookPart<C>(f: Fcs<C>, form: Form, ctl: bool, s: Bytes, done: Bytes, crc: C, left: Bytes)
    requires Took(f, form.Hex?, ctl, s, 5 + f.size, done, crc, left)
    requires |done| < 5 + f.size && !ReadByte(form.Hex?, ctl, left).0.Data?
    ensures ReadHeader(f, form, ctl, s)
            == (Headers.Failed(ReadByte(form.Hex?, ctl, left).0), ReadByte(form.Hex?, ctl, left).1)
  {
  }

  lemma TookAll<C>(f: Fcs<C>, form: Form, ctl: bool, s: Bytes, done: Bytes, crc: C, left: Bytes)
    requires Took(f, form.Hex?, ctl, s, 5 + f.size, done, crc, left) && |done| == 5 + f.size
    ensures ReadHeader(f, form, ctl, s)
            == (if f.good(crc) then Header(form, done[0], done[1..5]) else Headers.Failed(Bad), left)
  {
    assert done + [] == done;
  }

  /** What of a header has been read is where it belongs. */
  ghost predicate Stored(done: Bytes, typ: Byte, hdr: Bytes) {
    |hdr| == 4 && (done != [] ==> typ == done[0])
    && forall k {:trigger hdr[k]} :: 0 <= k < 4 && k + 1 < |done| ==> hdr[k] == done[k + 1]
  }

  lemma StoredAll(done: Bytes, typ: Byte, hdr: Bytes)
    requires Stored(done, typ, hdr) && |done| >= 5
    ensures typ == done[0] && hdr == done[1..5]
  {
  }

  lemma FieldsRead<C>(f: Fcs<C>, form: Form, ctl: bool, s: Bytes, done: Bytes, crc: C, left: Bytes, typ: Byte,
      hdr: Bytes)
    requires Took(f, form.Hex?, ctl, s, 5 + f.size, done, crc, left) && |done| == 5 + f.size && Stored(done, typ, hdr)
    ensures ReadHeader(f, form, ctl, s).1 == left
    ensures Reports(if f.good(crc) then Frame(form, typ) else Nothing(Bad), hdr, ReadHeader(f, form, ctl, s).0)
  {
    TookAll(f, form, ctl, s, done, crc, left);
    StoredAll(done, typ, hdr);
  }

  /** What zrdata returns besides the buffer. */
  datatype Code = Ended(end: Byte) | Cancelled | Damaged | NoReply

  function CodeOf(r: Received): Code {
    match r
    case Packet(_, end) => Ended(end)
    case ZCan => Cancelled
    case Error => Damaged
    case TimedOut => NoReply
  }

  /** `done` has been collected from `s`, with check `crc`, and `left` remains. */
  ghost predicate Collected<C>(f: Fcs<C>, ctl: bool, s: Bytes, room: nat, done: Bytes, crc: C, left: Bytes) {
    |done| <= room && crc == Fold(f, done, f.init)
    && var (data, stop, rest) := Collect(ctl, left, room - |done|);
      Collect(ctl, s, room) == (done + data, stop, rest)
  }

  lemma CollectedNone<C>(f: Fcs<C>, ctl: bool, s: Bytes, room: nat)
    ensures Collected(f, ctl, s, room, [], f.init, s)
  {
    assert [] + Collect(ctl, s, room).0 == Collect(ctl, s, room).0;
  }

  lemma CollectedOne<C>(f: Fcs<C>, ctl: bool, s: Bytes, room: nat, done: Bytes, crc: C, left: Bytes, b: Byte)
    requires Collected(f, ctl, s, room, done, crc, left) && |done| < room && Read(ctl, left).0 == Data(b)
    ensures Collected(f, ctl, s, room, done + [b], f.upd(b, crc), Read(ctl, left).1)
  {
    var data := Collect(ctl, Read(ctl, left).1, room - |done| - 1).0;
    Grouped(done, [b], data);
    OneMore(f, done, b);
  }

  lemma OneMore<C>(f: Fcs<C>, done: Bytes, b: Byte)
    ensures Fold(f, done + [b], f.init) == f.upd(b, Fold(f, done, f.init))
  {
    FoldConcat(f, done, [b], f.init);
    assert [b][1..] == [];
  }

  lemma CollectedEnd<C>(f: Fcs<C>, ctl: bool, s: Bytes, length: nat, done: Bytes, crc: C, left: Bytes)
    requires Collected(f, ctl, s, length + 1, done, crc, left) && |done| <= length && !Read(ctl, left).0.Data?
    ensures Receive(f, ctl, s, length) == Finish(f, ctl, done, crc, Read(ctl, left).0, Read(ctl, left).1)
  {
    assert done + [] == done;
  }

  lemma CollectedFull<C>(f: Fcs<C>, ctl: bool, s: Bytes, length: nat, done: Bytes, crc: C, left: Bytes)
    requires Collected(f, ctl, s, length + 1, done, crc, left) && |done| == length + 1
    ensures Receive(f, ctl, s, length) == (Error, left)
  {
  }
}
