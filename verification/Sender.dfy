/** The file sender of rzsz/lsz.c. A transcript of a transfer lists what the sender puts on the
    line and the replies it reads; it determines the sender's position, its turn and what it
    may send next. An abstract receiver, which the repository does not have, shows what the
    rules are good for. */
module Sender {
  import opened Zdle

  datatype Reply = Ack(pos: nat) | Rpos(pos: nat) | Rinit | Skip | Can | Abort | Fin | NoHeader | Other

  datatype Event = ZData(pos: nat) | SubPacket(data: Bytes, end: Byte) | ZEof(pos: nat) | ZNak | Heard(reply: Reply)

  type Transcript = seq<Event>

  function Front(log: Transcript): Transcript
    requires log != []
  {
    log[..|log| - 1]
  }

  function Last(log: Transcript): Event
    requires log != []
  {
    log[|log| - 1]
  }

  // ----- What a transcript determines -----

  /** bytes_sent */
  function At(log: Transcript): nat {
    if log == [] then 0 else
      match Last(log)
      case Heard(Rpos(p)) => p
      case SubPacket(data, _) => At(Front(log)) + |data|
      case _ => At(Front(log))
  }

  /** The position last asked for. */
  function Asked(log: Transcript): nat {
    if log == [] then 0 else
      match Last(log)
      case Heard(Rpos(p)) => p
      case _ => Asked(Front(log))
  }

  /** Lastsync: the position last asked for, but one less for the first. */
  function SyncOf(log: Transcript): int {
    if log == [] then -1 else
      match Last(log)
      case Heard(Rpos(p)) => if |log| == 1 then p - 1 else p
      case _ => SyncOf(Front(log))
  }

  /** eof_seen */
  predicate Ended(log: Transcript) {
    if log == [] then false else
      match Last(log)
      case Heard(Rpos(_)) => false
      case SubPacket(_, end) => end == ZCRCE
      case _ => Ended(Front(log))
  }

  /** What the sender has read. */
  function HeardOf(log: Transcript): seq<Reply> {
    if log == [] then [] else
      HeardOf(Front(log)) + if Last(log).Heard? then [Last(log).reply] else []
  }

  datatype Turn = Header | More | Finish | Listen | Complain | Over

  function TurnOf(log: Transcript): Turn
    requires log != []
  {
    match Last(log)
    case ZData(_) => More
    case SubPacket(_, end) => if end == ZCRCE then Finish else if end == ZCRCW then Listen else More
    case ZEof(_) => Listen
    case ZNak => Listen
    case Heard(Rpos(_)) => Header
    case Heard(Ack(p)) => if p != At(log) then Listen else if Ended(log) then Finish else Header
    case Heard(Other) => Complain
    case Heard(_) => Over
  }

  /** What getinsync and zsendfdata return. */
  datatype Code = OK | ERROR | ACK | RPOS | RINIT | SKIP

  /** The static c of zsendfdata, which was `c0` before the transfer: what getinsync made of the
      last answer to a subpacket. The answers to ZEOF are not put there. */
  function Stale(log: Transcript, c0: Code): Code {
    if |log| <= 1 then c0 else
      match Last(log)
      case Heard(reply) =>
        if Ended(Front(log)) then Stale(Front(log), c0) else Made(reply, At(Front(log)), Stale(Front(log), c0))
      case _ => Stale(Front(log), c0)
  }

  /** What getinsync returns for a reply at position `at`; `c` stays if it goes on. */
  function Made(reply: Reply, at: nat, c: Code): Code {
    match reply
    case Rpos(_) => RPOS
    case Ack(p) => if p == at then ACK else c
    case Rinit => RINIT
    case Skip => SKIP
    case Other => c
    case _ => ERROR
  }

  // ----- What may be sent -----

  function Max(a: nat, b: nat): nat { if a < b then b else a }

  /** The bytes of `data` stand in the file at `at`; they are none only from the end on. */
  predicate FromFile(file: Bytes, at: nat, data: Bytes) {
    if at >= |file| then data == [] else data != [] && at + |data| <= |file| && data == file[at..at + |data|]
  }

  /** How a subpacket ends: the last of the file, the one sent right where the receiver had
      asked for a repetition, or any other. */
  function EndOf(file: Bytes, at: nat, n: nat, sync: int): Byte {
    if at + n >= |file| then ZCRCE else if at == sync then ZCRCW else ZCRCG
  }

  predicate Proper(file: Bytes, before: Transcript, x: Event)
    requires before != []
  {
    match x
    case ZData(p) => TurnOf(before) == Header && p == At(before)
    case SubPacket(data, end) => TurnOf(before) == More && FromFile(file, At(before), data)
      && end == EndOf(file, At(before), |data|, SyncOf(before))
    case ZEof(p) => TurnOf(before) == Finish && p == At(before) == Max(|file|, Asked(before))
    case ZNak => TurnOf(before) == Complain
    case Heard(_) => TurnOf(before) == Listen
  }

  /** A transcript starts with the position that the receiver first asks for. */
  predicate Sound(file: Bytes, log: Transcript) {
    log != [] && if |log| == 1 then log[0].Heard? && log[0].reply.Rpos?
      else Sound(file, Front(log)) && Proper(file, Front(log), Last(log))
  }

  /** The data sent since the receiver last asked for a position. */
  function SentSince(log: Transcript): Bytes {
    if log == [] then [] else
      match Last(log)
      case Heard(Rpos(_)) => []
      case SubPacket(data, _) => SentSince(Front(log)) + data
      case _ => SentSince(Front(log))
  }

  /** That is always the part of the file from there on, without gap or repetition, up to
      bytes_sent. */
  lemma {:induction false} Contiguous(file: Bytes, log: Transcript)
    requires Sound(file, log)
    ensures Asked(log) <= At(log) <= Max(|file|, Asked(log))
    ensures SentSince(log) == if Asked(log) <= |file| then file[Asked(log)..At(log)] else []
    decreases |log|
  {
    if |log| > 1 {
      var before := Front(log);
      Contiguous(file, before);
      if Last(log).SubPacket? && Asked(before) <= |file| {
        Further(file, Asked(before), At(before), Last(log).data);
      }
    }
  }

  lemma Further(file: Bytes, a: nat, b: nat, data: Bytes)
    requires a <= b <= |file| && FromFile(file, b, data)
    ensures b + |data| <= |file| && file[a..b] + data == file[a..b + |data|]
  {
  }

  /** So by the time of ZEOF all of the file from the position last asked for has been sent. */
  lemma AllSent(file: Bytes, log: Transcript)
    requires Sound(file, log) && Last(log).ZEof?
    ensures SentSince(log) == if Asked(log) <= |file| then file[Asked(log)..] else []
  {
    assert Proper(file, Front(log), Last(log));
    Contiguous(file, log);
  }

  /** ZEOF carries the length of the file exactly if the receiver last asked for a position
      inside it. */
  lemma EofIsLength(file: Bytes, log: Transcript)
    requires Sound(file, log) && Last(log).ZEof?
    ensures Last(log).pos == |file| <==> Asked(log) <= |file|
  {
    assert Proper(file, Front(log), Last(log));
  }

  /** A subpacket that asks for an answer comes right after its ZDATA header. */
  lemma AnswerAtOnce(file: Bytes, log: Transcript)
    requires Sound(file, log) && Last(log).SubPacket? && Last(log).end == ZCRCW
    ensures Last(Front(log)) == ZData(Asked(log))
  {
    var before := Front(log);
    assert Proper(file, before, Last(log));
    Advances(file, before);
    assert |before| > 1;
    assert Proper(file, Front(before), Last(before));
  }

  /** Inside the file, the position asked for is also that of the sender only until the first
      subpacket: right after the request or after the ZDATA header that answers it. */
  lemma {:induction false} StillThere(file: Bytes, log: Transcript)
    requires Sound(file, log) && At(log) == Asked(log) < |file|
    ensures var n := |log|;
      || (log[n - 1].Heard? && log[n - 1].reply.Rpos?)
      || (n > 1 && log[n - 1].ZData? && log[n - 2].Heard? && log[n - 2].reply.Rpos?)
    decreases |log|
  {
    if |log| > 1 && !(Last(log).Heard? && Last(log).reply.Rpos?) {
      var before := Front(log);
      assert Proper(file, before, Last(log));
      Advances(file, before);
      if Last(log).SubPacket? {
        Advances(file, log);
      }
      StillThere(file, before);
    }
  }

  /** Where the transcript stands before the block after a ZDATA header that answers a request. */
  predicate Answering(log: Transcript) {
    var n := |log|;
    n > 1 && log[n - 1].ZData? && log[n - 2].Heard? && log[n - 2].reply.Rpos?
  }

  lemma RequestedAt(file: Bytes, log: Transcript)
    requires Sound(file, log) && Answering(log)
    ensures At(log) == Asked(log) && SyncOf(log) == if |log| == 2 then Asked(log) - 1 else Asked(log)
  {
    assert Last(Front(log)) == log[|log| - 2];
    assert |Front(log)| > 1 ==> Sound(file, Front(log));
  }

  /** How a subpacket ends. One with the last of the file ends the frame. One that stops short
      of that asks for an answer exactly if it comes right after a ZDATA header that answers a
      request of the receiver other than its first; any other goes on without. */
  lemma EndsIff(file: Bytes, log: Transcript)
    requires Sound(file, log) && Last(log).SubPacket?
    ensures At(log) >= |file| ==> Last(log).end == 0x68
    ensures At(log) < |file| ==>
      Last(log).end == if Answering(Front(log)) && |Front(log)| > 2 then 0x6B else 0x69
  {
    var before := Front(log);
    assert Proper(file, before, Last(log));
    Advances(file, before);
    if Answering(before) {
      RequestedAt(file, before);
    } else if At(log) < |file| && At(before) == SyncOf(before) {
      StillThere(file, before);
    }
  }

  /** Positions only grow until the receiver asks for another one. */
  lemma {:induction false} Advances(file: Bytes, log: Transcript)
    requires Sound(file, log)
    ensures Asked(log) <= At(log) && SyncOf(log) <= Asked(log)
    ensures Last(log).SubPacket? && Last(log).data != [] ==> Asked(log) < At(log)
    decreases |log|
  {
    if |log| > 1 {
      Advances(file, Front(log));
    }
  }

  /** bytes_sent is what has been sent since the last request, from its position on. */
  lemma SentUpTo(file: Bytes, log: Transcript)
    requires Sound(file, log)
    ensures At(log) == Asked(log) + |SentSince(log)|
  {
    Contiguous(file, log);
  }

  /** What may follow what. A frame is a ZDATA header and subpackets up to one that ends it; ZEOF
      comes after the last subpacket of the file and again for every acknowledgment; other
      answers than ZRPOS, ZACK and those that make no sense end the transfer. An acknowledgment
      counts only if it is for all that has been sent. */
  lemma Succession(file: Bytes, log: Transcript, a: Event, b: Event)
    requires Sound(file, log) && |log| > 1 && a == log[|log| - 2] && b == log[|log| - 1]
    ensures a.ZData? || (a.SubPacket? && a.end == 0x69) ==> b.SubPacket?
    ensures a.SubPacket? && a.end == 0x68 ==> b.ZEof?
    ensures (a.SubPacket? && a.end == 0x6B) || a.ZEof? || a.ZNak? ==> b.Heard?
    ensures a.Heard? ==>
      match a.reply
      case Rpos(p) => b == ZData(p)
      case Ack(p) =>
        if p != At(Front(log)) then b.Heard?
        else if Ended(Front(log)) then b == ZEof(p) else b == ZData(p)
      case Other => b == ZNak
      case _ => false
  {
    var before := Front(log);
    assert Proper(file, before, b) && Last(before) == a;
    EndIsKnown(file, before);
  }

  lemma EndIsKnown(file: Bytes, log: Transcript)
    requires Sound(file, log)
    ensures Last(log).SubPacket? ==> Last(log).end in {0x68, 0x69, 0x6B}
  {
    if Last(log).SubPacket? {
      EndsIff(file, log);
    }
  }

  // ----- Two runs that show what happens at the end -----

  lemma Next(file: Bytes, log: Transcript, x: Event)
    requires Sound(file, log) && Proper(file, log, x)
    ensures Sound(file, log + [x]) && Front(log + [x]) == log && Last(log + [x]) == x
  {
    assert Front(log + [x]) == log;
  }

  /** The whole file in one subpacket, from `p` on. */
  function Opening(p: nat, data: Bytes): Transcript {
    [Heard(Rpos(p))] + [ZData(p)] + [SubPacket(data, ZCRCE)]
  }

  lemma OpeningIs(file: Bytes, p: nat, data: Bytes)
    requires FromFile(file, p, data) && p + |data| >= |file|
    ensures var log := Opening(p, data);
      Sound(file, log) && TurnOf(log) == Finish && At(log) == p + |data| && Asked(log) == p && Ended(log)
    ensures Stale(Opening(p, data), OK) == OK
  {
    var start, header := [Heard(Rpos(p))], [Heard(Rpos(p))] + [ZData(p)];
    assert Sound(file, start) && At(start) == p && SyncOf(start) == p - 1;
    Next(file, start, ZData(p));
    assert At(header) == p && TurnOf(header) == More && SyncOf(header) == p - 1 && Asked(header) == p;
    Next(file, header, SubPacket(data, ZCRCE));
    assert Front(header) == start;
    assert Stale(start, OK) == OK && Stale(header, OK) == OK;
  }

  /** A receiver that asks for a position beyond the file gets it back in ZEOF. */
  lemma BeyondTheEnd(file: Bytes, p: nat) returns (log: Transcript)
    requires p > |file|
    ensures Sound(file, log) && HeardOf(log) == [Rpos(p)]
    ensures Last(log) == ZEof(p) && p != |file|
  {
    OpeningIs(file, p, []);
    log := Opening(p, []) + [ZEof(p)];
    Next(file, Opening(p, []), ZEof(p));
    HeardInOpening(p, []);
  }

  lemma HeardInOpening(p: nat, data: Bytes)
    ensures HeardOf(Opening(p, data)) == [Rpos(p)]
  {
    var start, header := [Heard(Rpos(p))], [Heard(Rpos(p))] + [ZData(p)];
    assert Front(start) == [] && Front(header) == start && Front(Opening(p, data)) == header;
    assert HeardOf(start) == [] + [Rpos(p)];
  }

  /** A receiver that skips the file at its end, in a transfer without an answer before: the
      static c is as it was, which is OK at first, so zsendfdata tells of success. */
  lemma SkippedAtEnd(file: Bytes) returns (log: Transcript)
    ensures Sound(file, log) && HeardOf(log) == [Rpos(0), Skip]
    ensures Last(log) == Heard(Skip) && Ended(log) && Stale(log, OK) == OK
  {
    OpeningIs(file, 0, file);
    HeardInOpening(0, file);
    var all := Opening(0, file) + [ZEof(|file|)];
    Next(file, Opening(0, file), ZEof(|file|));
    log := all + [Heard(Skip)];
    Next(file, all, Heard(Skip));
    assert Ended(all) && Stale(all, OK) == OK && HeardOf(all) == [Rpos(0)];
  }

  // ----- A receiver -----

  /** It keeps data only from where its own data ends, and of a frame only what comes before
      the first damage. */
  datatype Rx = Rx(data: Bytes, inFrame: bool, done: bool)

  function Take(rx: Rx, x: Event, intact: bool): Rx {
    match x
    case ZData(p) => rx.(inFrame := intact && p == |rx.data|)
    case SubPacket(data, end) =>
      if !rx.inFrame then rx
      else if !intact then rx.(inFrame := false)
      else Rx(rx.data + data, end != ZCRCE && end != ZCRCW, rx.done)
    case ZEof(p) => Rx(rx.data, false, rx.done || (intact && p == |rx.data|))
    case ZNak => rx
    case Heard(_) => rx
  }

  /** What it has after a transcript of which only some events arrive intact. */
  function Received(log: Transcript, intact: seq<bool>): Rx
    requires |intact| == |log|
  {
    if log == [] then Rx([], false, false)
    else Take(Received(Front(log), intact[..|log| - 1]), Last(log), intact[|log| - 1])
  }

  /** Whatever is damaged and whatever the receiver answers, it has the beginning of the file,
      and the whole file once it accepts a ZEOF. */
  lemma {:induction false} Safety(file: Bytes, log: Transcript, intact: seq<bool>)
    requires Sound(file, log) && |intact| == |log|
    ensures var rx := Received(log, intact);
      rx.data <= file && (rx.done ==> rx.data == file) && (rx.inFrame ==> |rx.data| == At(log) && TurnOf(log) == More)
    decreases |log|
  {
    if |log| == 1 {
      assert Front(log) == [];
    } else {
      Safety(file, Front(log), intact[..|log| - 1]);
      var before := Received(Front(log), intact[..|log| - 1]);
      if Last(log).SubPacket? && before.inFrame {
        Grows(file, before.data, Last(log).data);
      }
    }
  }

  lemma Grows(file: Bytes, had: Bytes, data: Bytes)
    requires had <= file && FromFile(file, |had|, data)
    ensures had + data <= file
  {
  }

  /** The receiver's requests are for the position that it has reached itself, and nothing
      after the last of them, at `k`, is damaged or answered by another one. */
  predicate Undisturbed(log: Transcript, intact: seq<bool>, k: nat)
    requires |intact| == |log|
  {
    k < |log| && log[k] == Heard(Rpos(|Received(log[..k], intact[..k]).data|))
    && forall i :: k < i < |log| ==> intact[i] && !(log[i].Heard? && log[i].reply.Rpos?)
  }

  /** Then the ZEOF that the sender comes to is accepted and the receiver has the whole file. */
  lemma Delivery(file: Bytes, log: Transcript, intact: seq<bool>, k: nat)
    requires Sound(file, log) && |intact| == |log| && Undisturbed(log, intact, k) && Last(log).ZEof?
    ensures Received(log, intact).done && Received(log, intact).data == file
  {
    Keeps(file, log, intact, k);
    Safety(file, log, intact);
  }

  lemma {:induction false} Keeps(file: Bytes, log: Transcript, intact: seq<bool>, k: nat)
    requires Sound(file, log) && |intact| == |log| && Undisturbed(log, intact, k)
    ensures var rx := Received(log, intact);
      |rx.data| == At(log) && (TurnOf(log) == More ==> rx.inFrame) && (Last(log).ZEof? ==> rx.done)
    decreases |log|
  {
    if k < |log| - 1 {
      var before, was := Front(log), intact[..|log| - 1];
      assert before[..k] == log[..k] && was[..k] == intact[..k];
      assert before[k] == log[k];
      Keeps(file, before, was, k);
    } else {
      assert Front(log) == log[..k];
    }
  }

  // ----- The sender -----

  /** zsendfile's ZRPOS case, zsendfdata, zfilbuf and getinsync with their static variables;
      `replies` is what zgethdr will return, NoHeader standing for TIMEOUT. */
  class Lsz {
    const file: Bytes
    const script: seq<Reply>
    var filepos: nat
    var bytesSent: nat
    var bytcnt: nat
    var lastsync: int
    var eofSeen: bool
    var c: Code  // the static variable of zsendfdata
    var replies: seq<Reply>
    var log: Transcript
    ghost var before: Code  // c when the transfer began

    constructor (contents: Bytes, answers: seq<Reply>)
      ensures file == contents && script == replies == answers && log == [] && !eofSeen && filepos == 0 && c == OK
    {
      before := OK;
      file, script, replies, log := contents, answers, answers, [];
      filepos, bytesSent, bytcnt, lastsync, eofSeen, c := 0, 0, 0, 0, false, OK;
    }

    /** The variables agree with a proper transcript, and no reply has been passed over. */
    ghost predicate InStep()
      reads this
    {
      Sound(file, log) && HeardOf(log) + replies == script
      && bytesSent == bytcnt == At(log) && lastsync == SyncOf(log) && eofSeen == Ended(log)
      && Asked(log) <= bytesSent <= Max(|file|, Asked(log))
      && if eofSeen then bytesSent >= |file| else filepos == bytesSent
    }

    /** zfilbuf(): at most `blklen` bytes, and a look ahead for the end of the file. */
    method Zfilbuf(blklen: nat) returns (data: Bytes)
      requires blklen > 0 && filepos == bytesSent && !eofSeen
      modifies `filepos, `eofSeen
      ensures FromFile(file, bytesSent, data) && |data| <= blklen
      ensures eofSeen == (bytesSent + |data| >= |file|)
      ensures filepos == bytesSent + |data|
    {
      var n := if filepos >= |file| then 0 else if filepos + blklen <= |file| then blklen else |file| - filepos;
      data := if n == 0 then [] else file[filepos..filepos + n];
      filepos := filepos + n;
      if n < blklen {
        eofSeen := true;
      } else if filepos >= |file| {
        eofSeen := true;
      }
    }

    /** One round of zsendfdata's loop, with whatever length calc_blklen comes to. */
    method SendBlock(blklen: nat) returns (e: Byte)
      requires InStep() && !eofSeen && TurnOf(log) == More && blklen > 0
      modifies `filepos, `eofSeen, `bytesSent, `bytcnt, `log
      ensures InStep() && TurnOf(log) == if eofSeen then Finish else if e == ZCRCW then Listen else More
      ensures !eofSeen ==> |file| > filepos > old(filepos)
      ensures e == ZCRCW ==> !eofSeen
      ensures Stale(log, before) == old(Stale(log, before))
    {
      var data := Zfilbuf(blklen);
      if eofSeen {
        e := ZCRCE;
      } else if bytcnt == lastsync {
        e := ZCRCW;
      } else {
        e := ZCRCG;
      }
      ghost var was := log;
      log := log + [SubPacket(data, e)];
      assert Front(log) == was;
      assert HeardOf(log) == HeardOf(was);
      bytesSent := bytesSent + |data|;
      bytcnt := bytesSent;
    }

    /** getinsync(), whose flag is 0 while there is no window. */
    method Getinsync() returns (r: Code)
      requires InStep() && TurnOf(log) == Listen
      modifies `filepos, `eofSeen, `bytesSent, `bytcnt, `lastsync, `replies, `log
      ensures InStep() && r != OK
      ensures r == RPOS ==> TurnOf(log) == Header && !eofSeen
      ensures r == ACK ==> eofSeen == old(eofSeen) && TurnOf(log) == if eofSeen then Finish else Header
      ensures r == RINIT <==> Last(log) == Heard(Rinit)
      ensures r == SKIP <==> Last(log) == Heard(Skip)
      ensures r == SKIP ==> eofSeen == old(eofSeen)
      ensures r != ERROR ==> Stale(log, before) == if old(eofSeen) then old(Stale(log, before)) else r
      ensures r == RPOS || r == ACK ==> |replies| < |old(replies)|
    {
      while replies != []
        invariant InStep() && TurnOf(log) == Listen && eofSeen == old(eofSeen) && |replies| <= |old(replies)|
        invariant Last(log) != Heard(Rinit) && Last(log) != Heard(Skip)
        invariant Stale(log, before) == old(Stale(log, before))
        decreases |replies|
      {
        r := React();
        if r != OK {
          return r;
        }
      }
      return ERROR;
    }

    /** One round of getinsync's loop; OK if it goes on. */
    method React() returns (r: Code)
      requires InStep() && TurnOf(log) == Listen && replies != []
      modifies `filepos, `eofSeen, `bytesSent, `bytcnt, `lastsync, `replies, `log
      ensures InStep() && |replies| < |old(replies)| && (r == RPOS || eofSeen == old(eofSeen))
      ensures r == RPOS ==> TurnOf(log) == Header && !eofSeen
      ensures r == ACK ==> TurnOf(log) == if eofSeen then Finish else Header
      ensures r == OK ==> TurnOf(log) == Listen
      ensures (r == RINIT <==> Last(log) == Heard(Rinit)) && (r == SKIP <==> Last(log) == Heard(Skip))
      ensures r != ERROR ==> Stale(log, before) == if old(eofSeen) || r == OK then old(Stale(log, before)) else r
    {
      var reply := Hear();
      match reply {
        case Can => return ERROR;
        case Abort => return ERROR;
        case Fin => return ERROR;
        case NoHeader => return ERROR;
        case Rpos(rxpos) =>
          Reposition(rxpos);
          return RPOS;
        case Ack(rxpos) =>
          return if bytesSent == rxpos then ACK else OK;
        case Rinit => return RINIT;
        case Skip => return SKIP;
        case Other =>
          Emit(ZNak);
          return OK;
      }
    }

    /** The next header from the receiver. */
    method Hear() returns (reply: Reply)
      requires InStep() && TurnOf(log) == Listen && replies != []
      modifies `replies, `log
      ensures log != [] && Last(log) == Heard(reply) && |replies| < |old(replies)|
      ensures Sound(file, log) && HeardOf(log) + replies == script
      ensures !reply.Rpos? ==> InStep()
      ensures reply.Rpos? ==> At(log) == Asked(log) == SyncOf(log) == reply.pos && !Ended(log)
      ensures !reply.Rpos? ==> eofSeen == Ended(log) && bytesSent == At(log)
      ensures Stale(log, before) ==
        if eofSeen then old(Stale(log, before)) else Made(reply, bytesSent, old(Stale(log, before)))
    {
      reply, replies := replies[0], replies[1..];
      ghost var was := log;
      log := log + [Heard(reply)];
      assert Front(log) == was;
      assert HeardOf(was) + [reply] + replies == HeardOf(was) + ([reply] + replies);
    }

    /** getinsync, case ZRPOS. */
    method Reposition(rxpos: nat)
      requires Sound(file, log) && HeardOf(log) + replies == script
      requires rxpos == At(log) == Asked(log) == SyncOf(log) && !Ended(log)
      modifies `filepos, `eofSeen, `bytesSent, `bytcnt, `lastsync
      ensures InStep() && !eofSeen
    {
      filepos, eofSeen := rxpos, false;
      bytcnt, bytesSent := rxpos, rxpos;
      lastsync := rxpos;
    }

    /** An event that moves nothing. */
    method Emit(x: Event)
      requires InStep() && !x.Heard? && !x.SubPacket? && Proper(file, log, x)
      modifies `log
      ensures InStep() && log == old(log) + [x] && Last(log) == x
      ensures Stale(log, before) == old(Stale(log, before))
    {
      ghost var was := log;
      log := log + [x];
      assert Front(log) == was;
      assert HeardOf(log) == HeardOf(was);
    }

    /** zsendfile, case ZRPOS: the file is not moved for position 0. */
    method StartAt(rxpos: nat) returns (r: Code)
      requires log == [] && script == [Rpos(rxpos)] + replies && filepos == 0 && !eofSeen
      modifies this
      ensures InStep()
      ensures Last(log) == Heard(Skip) ==> r == if Ended(log) then Stale(log, old(c)) else SKIP
      ensures r == OK
              <==> Last(log) == Heard(Rinit) || (Last(log) == Heard(Skip) && Ended(log) && Stale(log, old(c)) == OK)
    {
      before := c;
      log := [Heard(Rpos(rxpos))];
      if rxpos != 0 {
        filepos := rxpos;
      }
      bytcnt, bytesSent := rxpos, rxpos;
      lastsync := rxpos - 1;
      assert Front(log) == [];
      assert HeardOf(log) == [] + [Rpos(rxpos)];
      r := Zsendfdata();
    }

    /** zsendfdata(). A receiver that skips the file at its end makes it return the static c,
        whatever was left there. */
    method Zsendfdata() returns (r: Code)
      requires InStep() && TurnOf(log) == Header && !eofSeen && c == Stale(log, before)
      modifies this
      ensures InStep() && before == old(before)
      ensures Last(log) == Heard(Skip) ==> r == if Ended(log) then Stale(log, before) else SKIP
      ensures r == OK
              <==> Last(log) == Heard(Rinit) || (Last(log) == Heard(Skip) && Ended(log) && Stale(log, before) == OK)
    {
      while true
        invariant InStep() && TurnOf(log) == Header && !eofSeen
        invariant c == Stale(log, before) && before == old(before)
        decreases |replies|
      {
        Emit(ZData(bytesSent));
        var e := SendFrame();
        if e == ZCRCW {
          c := Getinsync();
          match c {
            case ACK =>
            case RPOS =>
            case RINIT => return OK;
            case SKIP => return c;
            case _ => return ERROR;
          }
        } else {
          r := SendEof();
          if r != RPOS {
            return if r == RINIT then OK else if r == SKIP then c else ERROR;
          }
        }
      }
      return ERROR;
    }

    /** The do-while loop: up to the end of the file or a subpacket that wants an answer. */
    method SendFrame() returns (e: Byte)
      requires InStep() && TurnOf(log) == More && !eofSeen
      modifies `filepos, `eofSeen, `bytesSent, `bytcnt, `log
      ensures InStep() && eofSeen == (e != ZCRCW) && TurnOf(log) == if eofSeen then Finish else Listen
      ensures Stale(log, before) == old(Stale(log, before))
    {
      while true
        invariant InStep() && TurnOf(log) == More && !eofSeen
        invariant Stale(log, before) == old(Stale(log, before))
        decreases |file| - filepos
      {
        var blklen: nat :| blklen > 0;
        e := SendBlock(blklen);
        if e == ZCRCW || eofSeen {
          break;
        }
      }
    }

    /** The last loop: ZEOF again for every acknowledgment. */
    method SendEof() returns (k: Code)
      requires InStep() && TurnOf(log) == Finish && eofSeen
      modifies `filepos, `eofSeen, `bytesSent, `bytcnt, `lastsync, `replies, `log
      ensures InStep() && k != ACK && k != OK
      ensures k == RPOS ==> TurnOf(log) == Header && !eofSeen && |replies| < |old(replies)|
      ensures k == RINIT <==> Last(log) == Heard(Rinit)
      ensures k == SKIP <==> Last(log) == Heard(Skip)
      ensures k == SKIP ==> eofSeen
      ensures k != ERROR ==> Stale(log, before) == old(Stale(log, before))
    {
      while true
        invariant InStep() && TurnOf(log) == Finish && eofSeen && |replies| <= |old(replies)|
        invariant Stale(log, before) == old(Stale(log, before))
        decreases |replies|
      {
        Emit(ZEof(bytesSent));
        k := Getinsync();
        if k != ACK {
          break;
        }
      }
    }
  }
}
