/** lib/pipe.c: the ring buffer shared by one reader and one writer, each load,
    store and increment a step of its own. */
module PipeRing {
  import opened Arith

  /** devpipe_read between two accesses to the shared page. */
  datatype Reader =
    | RIdle                            // about to load p_rpos for the emptiness test
    | RSeen(r: nat)                    // about to load p_wpos and compare
    | RIndex                           // not empty: about to load p_rpos for the index
    | RByte(r: nat)                    // about to load p_buf[r % PIPEBUFSIZ]
    | RInc(byte: int)                  // byte taken: about to load p_rpos
    | RStore(r: nat, byte: int)        // about to store p_rpos = r + 1

  /** devpipe_write, likewise, with the byte it is to store. */
  datatype Writer =
    | WIdle
    | WSeen(w: nat, byte: int)
    | WIndex(byte: int)
    | WByte(w: nat, byte: int)
    | WInc(byte: int)
    | WStore(w: nat, byte: int)

  /** The shared page, both programs, and two histories: bytes written (their
      p_wpos++ done) and bytes read (their p_rpos++ done). */
  datatype Pipe = Pipe(rpos: nat, wpos: nat, buf: seq<int>, r: Reader, w: Writer, sent: seq<int>, got: seq<int>)

  /** Rem(pos, |buf|) is pos % PIPEBUFSIZ. */
  function ReadStep(p: Pipe): Pipe
    requires |p.buf| > 0
  {
    match p.r
    case RIdle => p.(r := RSeen(p.rpos))
    case RSeen(r) => p.(r := if r == p.wpos then RIdle else RIndex)
    case RIndex => p.(r := RByte(p.rpos))
    case RByte(r) => p.(r := RInc(p.buf[Rem(r, |p.buf|)]))
    case RInc(byte) => p.(r := RStore(p.rpos, byte))
    case RStore(r, byte) => p.(r := RIdle, rpos := r + 1, got := p.got + [byte])
  }

  /** next is the byte the writer is given when it starts on a new one. */
  function WriteStep(p: Pipe, next: int): Pipe
    requires |p.buf| > 0
  {
    match p.w
    case WIdle => p.(w := WSeen(p.wpos, next))
    case WSeen(w, byte) => p.(w := if w >= p.rpos + |p.buf| then WIdle else WIndex(byte))
    case WIndex(byte) => p.(w := WByte(p.wpos, byte))
    case WByte(w, byte) => p.(w := WInc(byte), buf := p.buf[Rem(w, |p.buf|) := byte])
    case WInc(byte) => p.(w := WStore(p.wpos, byte))
    case WStore(w, byte) => p.(w := WIdle, wpos := w + 1, sent := p.sent + [byte])
  }

  // ----- the invariant -----

  /** The reader holds a byte only while the ring has one, and it is the next one sent. */
  predicate ReaderOk(p: Pipe) {
    |p.sent| == p.wpos &&
    match p.r
    case RIdle => true
    case RSeen(r) => r == p.rpos
    case RIndex => p.rpos < p.wpos
    case RByte(r) => r == p.rpos < p.wpos
    case RInc(byte) => p.rpos < p.wpos && byte == p.sent[p.rpos]
    case RStore(r, byte) => r == p.rpos < p.wpos && byte == p.sent[p.rpos]
  }

  predicate WriterOk(p: Pipe)
    requires |p.buf| > 0
  {
    match p.w
    case WIdle => true
    case WSeen(w, _) => w == p.wpos
    case WIndex(_) => p.wpos < p.rpos + |p.buf|
    case WByte(w, _) => w == p.wpos < p.rpos + |p.buf|
    case WInc(byte) => p.wpos < p.rpos + |p.buf| && p.buf[Rem(p.wpos, |p.buf|)] == byte
    case WStore(w, byte) => w == p.wpos < p.rpos + |p.buf| && p.buf[Rem(p.wpos, |p.buf|)] == byte
  }

  /** Positions in [rpos, wpos) hold the bytes sent and not yet read. */
  ghost predicate Inv(p: Pipe) {
    && |p.buf| > 0 && p.rpos <= p.wpos <= p.rpos + |p.buf|
    && ReaderOk(p) && WriterOk(p)
    && p.got == p.sent[..p.rpos]
    && forall i {:trigger p.sent[i]} :: p.rpos <= i < p.wpos ==> p.buf[Rem(i, |p.buf|)] == p.sent[i]
  }

  /** Fewer than n positions apart, two positions have different places in the ring. */
  lemma Apart(n: nat, i: nat, w: nat)
    requires n > 0 && i < w < i + n
    ensures Rem(i, n) != Rem(w, n)
  {
    QuotRem(i, n);
    QuotRem(w, n);
    if Rem(i, n) == Rem(w, n) {
      if Quot(w, n) <= Quot(i, n) {
        MulMono(n, Quot(w, n), Quot(i, n));
      } else {
        MulMono(n, Quot(i, n) + 1, Quot(w, n));
      }
    }
  }

  lemma ReadKeeps(p: Pipe)
    requires Inv(p)
    ensures Inv(ReadStep(p))
  {
    if p.r.RStore? {
      assert p.sent[..p.rpos + 1] == p.sent[..p.rpos] + [p.sent[p.rpos]];
    } else if p.r.RByte? {
      assert p.sent[p.rpos] == p.buf[Rem(p.rpos, |p.buf|)];
    }
  }

  lemma WriteKeeps(p: Pipe, next: int)
    requires Inv(p)
    ensures Inv(WriteStep(p, next))
  {
    var p' := WriteStep(p, next);
    if p.w.WByte? {
      forall i | p.rpos <= i < p.wpos ensures p'.buf[Rem(i, |p.buf|)] == p.sent[i] {
        Apart(|p.buf|, i, p.wpos);
        assert p.buf[Rem(i, |p.buf|)] == p.sent[i];
      }
    } else if p.w.WStore? {
      assert p'.sent[..p.rpos] == p.sent[..p.rpos];
      forall i | p'.rpos <= i < p'.wpos ensures p'.buf[Rem(i, |p'.buf|)] == p'.sent[i] {
        if i < p.wpos {
          assert p.buf[Rem(i, |p.buf|)] == p.sent[i];
        }
      }
    }
  }

  // ----- runs -----

  datatype Turn = Read | Write(next: int)

  ghost predicate Run(ps: seq<Pipe>, turns: seq<Turn>) {
    && |ps| == |turns| + 1
    && forall i {:trigger turns[i]} :: 0 <= i < |turns| && |ps[i].buf| > 0 ==>
         ps[i + 1] == (if turns[i].Read? then ReadStep(ps[i]) else WriteStep(ps[i], turns[i].next))
  }

  /** In every interleaving, the two positions stay within PIPEBUFSIZ of each
      other and the bytes read are a prefix of the bytes written. */
  lemma {:induction false} PipeIsFifo(ps: seq<Pipe>, turns: seq<Turn>, n: nat)
    requires Run(ps, turns) && Inv(ps[0]) && n < |ps|
    ensures Inv(ps[n])
    ensures ps[n].rpos <= ps[n].wpos <= ps[n].rpos + |ps[n].buf|
    ensures ps[n].got <= ps[n].sent && |ps[n].got| == ps[n].rpos && |ps[n].sent| == ps[n].wpos
  {
    if n > 0 {
      PipeIsFifo(ps, turns, n - 1);
      var i := n - 1;
      if turns[i].Read? {
        ReadKeeps(ps[i]);
      } else {
        WriteKeeps(ps[i], turns[i].next);
      }
    }
  }

  // ----- progress -----

  function Reads(p: Pipe, n: nat): (q: Pipe)
    requires |p.buf| > 0
    ensures |q.buf| == |p.buf|
    decreases n
  {
    if n == 0 then p else Reads(ReadStep(p), n - 1)
  }

  function Writes(p: Pipe, next: int, n: nat): (q: Pipe)
    requires |p.buf| > 0
    ensures |q.buf| == |p.buf|
    decreases n
  {
    if n == 0 then p else Writes(WriteStep(p, next), next, n - 1)
  }

  /** A reader that is left alone takes the oldest byte in six accesses if there is one, and gives up
      after two, to wait, if there is none. */
  lemma ReadTakes(p: Pipe)
    requires Inv(p) && p.r == RIdle
    ensures p.rpos == p.wpos ==> Reads(p, 2) == p
    ensures p.rpos < p.wpos ==> Reads(p, 6) == p.(rpos := p.rpos + 1, got := p.got + [p.sent[p.rpos]])
  {
    var p1 := ReadStep(p);
    var p2 := ReadStep(p1);
    assert Reads(p, 2) == Reads(p1, 1) == Reads(p2, 0);
    if p.rpos < p.wpos {
      var p3 := ReadStep(p2);
      ReadKeeps(p);
      ReadKeeps(p1);
      ReadKeeps(p2);
      ReadKeeps(p3);
      var p4 := ReadStep(p3);
      var p5 := ReadStep(p4);
      var p6 := ReadStep(p5);
      assert Reads(p, 6) == Reads(p1, 5) == Reads(p2, 4) == Reads(p3, 3) == Reads(p4, 2) == Reads(p5, 1) == p6;
    }
  }

  /** A writer that is left alone adds its byte in six accesses if there is room, and gives up after two if not. */
  lemma WriteAdds(p: Pipe, next: int)
    requires Inv(p) && p.w == WIdle
    ensures p.wpos == p.rpos + |p.buf| ==> Writes(p, next, 2) == p
    ensures p.wpos < p.rpos + |p.buf| ==>
      Writes(p, next, 6) == p.(wpos := p.wpos + 1, sent := p.sent + [next], buf := p.buf[Rem(p.wpos, |p.buf|) := next])
  {
    var p1 := WriteStep(p, next);
    var p2 := WriteStep(p1, next);
    assert Writes(p, next, 2) == Writes(p1, next, 1) == Writes(p2, next, 0);
    if p.wpos < p.rpos + |p.buf| {
      var p3 := WriteStep(p2, next);
      var p4 := WriteStep(p3, next);
      var p5 := WriteStep(p4, next);
      var p6 := WriteStep(p5, next);
      assert Writes(p, next, 6) == Writes(p1, next, 5) == Writes(p2, next, 4) == Writes(p3, next, 3);
      assert Writes(p3, next, 3) == Writes(p4, next, 2) == Writes(p5, next, 1) == p6;
    }
  }

  /** A new pipe: positions 0, both programs idle, nothing sent. */
  lemma EmptyPipe(p: Pipe)
    requires |p.buf| > 0 && p.rpos == p.wpos == 0 && p.r == RIdle && p.w == WIdle && p.sent == p.got == []
    ensures Inv(p)
  {
  }
}
