/** Whole ZDATA frames of rzsz/zm.c: a binary header and the subpackets after it, as one piece
    of line. */
module Frames {
  import opened Basics
  import Crc
  import opened Zdle
  import opened Subpackets
  import opened Headers
  import opened HeaderScan

  datatype Piece = Piece(data: Bytes, end: Byte)

  predicate Fits(pieces: seq<Piece>, length: nat) {
    forall p :: p in pieces ==> IsEnd(p.end) && |p.data| <= length
  }

  function LastAfterPiece<C>(f: Fcs<C>, e: Escapes, last: Byte, p: Piece): Byte {
    LastOf(e, LastOf(e, last, p.data), CheckOf(f, p.data, p.end))
  }

  /** What zsdata or zsda32 writes for the pieces in turn, XON after each ZCRCW included. */
  function PiecesSent<C>(f: Fcs<C>, e: Escapes, last: Byte, pieces: seq<Piece>): Bytes
    decreases |pieces|
  {
    if pieces == [] then []
    else
      var p := pieces[0];
      Sent(f, e, last, p.data, p.end) + Answer(p.end)
      + PiecesSent(f, e, LastAfterPiece(f, e, last, p), pieces[1..])
  }

  /** Up to `n` calls of zrdata, while they succeed. */
  function PiecesRead<C>(f: Fcs<C>, ctl: bool, s: Bytes, length: nat, n: nat): (seq<Piece>, Bytes)
    decreases n
  {
    if n == 0 then ([], s)
    else
      var (r, rest) := Receive(f, ctl, s, length);
      if !r.Packet? then ([], rest)
      else
        var (more, left) := PiecesRead(f, ctl, rest, length, n - 1);
        ([Piece(r.data, r.end)] + more, left)
  }

  /** The pieces come back as they were cut. */
  lemma {:induction false} PiecesBack<C(!new)>(f: Fcs<C>, e: Escapes, ctl: bool, last: Byte, pieces: seq<Piece>,
      length: nat, s: Bytes, rest: Bytes)
    requires Subpackets.Sound(f) && Compatible(e, ctl) && Fits(pieces, length)
    requires Strip(ctl, s) == Strip(ctl, PiecesSent(f, e, last, pieces)) + rest
    ensures PiecesRead(f, ctl, s, length, |pieces|).0 == pieces
    ensures Strip(ctl, PiecesRead(f, ctl, s, length, |pieces|).1) == rest
    decreases |pieces|
  {
    if pieces == [] {
      assert [] + rest == rest;
    } else {
      var next := LastAfterPiece(f, e, last, pieces[0]);
      var left := FirstBack(f, e, ctl, last, pieces, next, length, s, rest);
      PiecesBack(f, e, ctl, next, pieces[1..], length, left, rest);
      ReadsFirst(f, ctl, s, length, pieces, left);
    }
  }

  lemma ReadsFirst<C>(f: Fcs<C>, ctl: bool, s: Bytes, length: nat, pieces: seq<Piece>, left: Bytes)
    requires pieces != [] && Receive(f, ctl, s, length) == (Packet(pieces[0].data, pieces[0].end), left)
    requires PiecesRead(f, ctl, left, length, |pieces[1..]|).0 == pieces[1..]
    ensures PiecesRead(f, ctl, s, length, |pieces|).0 == pieces
    ensures PiecesRead(f, ctl, s, length, |pieces|).1 == PiecesRead(f, ctl, left, length, |pieces[1..]|).1
  {
    assert [pieces[0]] + pieces[1..] == pieces;
  }

  lemma FirstBack<C(!new)>(f: Fcs<C>, e: Escapes, ctl: bool, last: Byte, pieces: seq<Piece>, next: Byte, length: nat,
      s: Bytes, rest: Bytes)
      returns (left: Bytes)
    requires Subpackets.Sound(f) && Compatible(e, ctl) && Fits(pieces, length) && pieces != []
    requires next == LastAfterPiece(f, e, last, pieces[0])
    requires Strip(ctl, s) == Strip(ctl, PiecesSent(f, e, last, pieces)) + rest
    ensures Receive(f, ctl, s, length) == (Packet(pieces[0].data, pieces[0].end), left)
    ensures Strip(ctl, left) == Strip(ctl, PiecesSent(f, e, next, pieces[1..])) + rest
  {
    var p := pieces[0];
    var more := Strip(ctl, PiecesSent(f, e, next, pieces[1..]));
    FirstPiece(f, e, ctl, last, pieces);
    Grouped(Sent(f, e, last, p.data, p.end), more, rest);
    RoundTrip(f, e, ctl, ctl, last, p.data, p.end, length, s, more + rest);
    left := Receive(f, ctl, s, length).1;
  }

  lemma FirstPiece<C>(f: Fcs<C>, e: Escapes, ctl: bool, last: Byte, pieces: seq<Piece>)
    requires Compatible(e, ctl) && pieces != [] && IsEnd(pieces[0].end)
    ensures Strip(ctl, PiecesSent(f, e, last, pieces)) ==
      Sent(f, e, last, pieces[0].data, pieces[0].end)
      + Strip(ctl, PiecesSent(f, e, LastAfterPiece(f, e, last, pieces[0]), pieces[1..]))
  {
    var p := pieces[0];
    var sent, more := Sent(f, e, last, p.data, p.end), PiecesSent(f, e, LastAfterPiece(f, e, last, p), pieces[1..]);
    SentIsClean(f, e, ctl, last, p.data, p.end);
    AnswerDropped(ctl, p.end);
    MiddleDropped(ctl, sent, Answer(p.end), more);
  }

  /** The XON after ZCRCW. */
  function Answer(end: Byte): Bytes {
    if end == ZCRCW then [XON] else []
  }

  lemma AnswerDropped(ctl: bool, end: Byte)
    ensures Strip(ctl, Answer(end)) == []
  {
    assert Answer(end) != [] ==> Answer(end)[1..] == [];
  }

  lemma MiddleDropped(ctl: bool, a: Bytes, b: Bytes, c: Bytes)
    requires Strip(ctl, a) == a && Strip(ctl, b) == []
    ensures Strip(ctl, a + b + c) == a + Strip(ctl, c)
  {
    StripConcat(ctl, a + b, c);
    StripConcat(ctl, a, b);
    assert a + [] == a;
  }

  /** One frame: the receiver gets the position and then every piece, through garbage in front
      of the frame and flow control anywhere in it. */
  lemma FrameBack<C(!new)>(f: Fcs<C>, form: Form, tab: Crc.Table16, e: Escapes, ctl: bool, last: Byte, after: Byte,
      pos: nat, pieces: seq<Piece>, length: nat,
      garbage: nat, junk: Bytes, s: Bytes, rest: Bytes)
    requires Subpackets.Sound(f) && Compatible(e, ctl) && !form.Hex? && Fits(pieces, length)
    requires Clear(form, ctl, garbage, junk)
    requires s != [] && s[0] == ZPAD
    requires Strip(false, s)
             == Strip(false, HeaderSent(form, tab, e, last, ZDATA, Stohdr(pos))
                             + (PiecesSent(f, e, after, pieces) + rest))
    ensures var (r, body) := Hunt(tab, ctl, Again, garbage, 5, junk + s);
      r == Header(form, ZDATA, Stohdr(pos)) && Rclhdr(r.hdr) == pos % 0x1_0000_0000
      && PiecesRead(f, ctl, body, length, |pieces|).0 == pieces
      && Strip(ctl, PiecesRead(f, ctl, body, length, |pieces|).1) == Strip(ctl, rest)
  {
    HeaderBack(form, tab, e, ctl, last, ZDATA, pos, garbage, junk, s, PiecesSent(f, e, after, pieces) + rest);
    StripConcat(ctl, PiecesSent(f, e, after, pieces), rest);
    PiecesBack(f, e, ctl, after, pieces, length, Hunt(tab, ctl, Again, garbage, 5, junk + s).1, Strip(ctl, rest));
  }
}
