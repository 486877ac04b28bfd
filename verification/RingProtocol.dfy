/** The keyboard ring buffer under interrupts. The reader (`keyboard_getchar`) is split into
    its statements; between any two of them a whole `keyboard_put_char` may run, since the
    handlers run with interrupts masked. The ring is shown to be a 256-place queue. */
module RingProtocol {
  import opened Words

  const SIZE: nat := 256

  datatype RingData = RingData(slots: seq<byte>, head: nat, tail: nat, count: u32)

  type Ring = r: RingData | |r.slots| == SIZE && r.head < SIZE && r.tail < SIZE
    witness RingData(seq(SIZE, _ => 0), 0, 0, 0)

  /** The index `k` places after `head`, going round. */
  function Slot(head: nat, k: nat): (i: nat)
    ensures i < SIZE
  {
    (head + k) % SIZE
  }

  lemma SlotFacts(head: nat, k: nat, n: nat)
    requires head < SIZE
    ensures k < SIZE && n < SIZE && k != n ==> Slot(head, k) != Slot(head, n)
    ensures Slot(Slot(head, k), n) == Slot(head, k + n)
  {
    if k < n < SIZE {
      Rounds(head + k, n - k);
    } else if n < k < SIZE {
      Rounds(head + n, k - n);
    }
    WholeRounds(Slot(head, k) + n, (head + k) / SIZE);
  }

  lemma Rounds(a: nat, k: nat)
    requires k < SIZE
    ensures (a + k) % SIZE == a % SIZE <==> k == 0
  {
  }

  lemma WholeRounds(a: nat, q: nat)
    ensures (a + SIZE * q) % SIZE == a % SIZE
  {
  }

  /** The `n` bytes from `head` on, going round. */
  function From(slots: seq<byte>, head: nat, n: nat): (q: seq<byte>)
    requires |slots| == SIZE
    ensures |q| == n
  {
    seq(n, k requires 0 <= k < n => slots[Slot(head, k)])
  }

  /** `head` points at the oldest of `n` bytes and `tail` just past the newest. */
  predicate Spans(r: Ring, n: int) {
    0 <= n <= SIZE && r.tail == Slot(r.head, n)
  }

  lemma StoreAppends(r: Ring, n: nat, c: byte)
    requires Spans(r, n) && n < SIZE
    ensures From(r.slots[r.tail := c], r.head, n + 1) == From(r.slots, r.head, n) + [c]
    ensures Slot(r.tail, 1) == Slot(r.head, n + 1)
  {
    hide Slot;
    SlotFacts(r.head, n, 1);
    forall k | 0 <= k < n
      ensures Slot(r.head, k) != r.tail
    {
      SlotFacts(r.head, k, n);
    }
  }

  lemma AdvanceDrops(r: Ring, n: nat)
    requires Spans(r, n) && n > 0
    ensures From(r.slots, r.head, n) == [r.slots[r.head]] + From(r.slots, Slot(r.head, 1), n - 1)
    ensures r.tail == Slot(Slot(r.head, 1), n - 1)
  {
    forall k | 0 <= k < n
      ensures Slot(Slot(r.head, 1), k) == Slot(r.head, 1 + k)
    {
      SlotFacts(r.head, 1, k);
    }
    assert Slot(r.head, 0) == r.head;
  }

  // -------------------------------------------------------------- the two parties

  /** The reader's next statement, with its local `c` (and a count held in a register). */
  datatype Pc =
    | Test                              // if (kbd_buf_count == 0) return -1
    | Load                              // c = kbd_buffer[kbd_buf_head]
    | Bump(c: byte)                     // kbd_buf_head = (kbd_buf_head + 1) % SIZE
    | Drop(c: byte)                     // kbd_buf_count--
    | Return(c: byte)                   // return (int)(unsigned char)c
    | Store(c: byte, register: u32)     // the store half of a count-- split in two

  /** `accepted` and `taken` are histories: bytes the ring took in and gave up. */
  datatype State = State(ring: Ring, pc: Pc, accepted: seq<byte>, taken: seq<byte>, results: seq<int>)

  datatype Move = Put(c: byte) | Reader | SplitLoad

  /** `keyboard_put_char` on the ring: refused when 256 bytes are counted. */
  function PutRing(r: Ring, c: byte): Ring {
    if r.count < SIZE then RingData(r.slots[r.tail := c], r.head, Slot(r.tail, 1), r.count + 1) else r
  }

  function AfterPut(s: State, c: byte): State {
    s.(ring := PutRing(s.ring, c), accepted := if s.ring.count < SIZE then s.accepted + [c] else s.accepted)
  }

  function AfterReader(s: State): State {
    var r := s.ring;
    match s.pc
    case Test => if r.count == 0 then s.(results := s.results + [-1]) else s.(pc := Load)
    case Load => s.(pc := Bump(r.slots[r.head]))
    case Bump(c) => s.(ring := r.(head := Slot(r.head, 1)), pc := Drop(c))
    case Drop(c) => s.(ring := r.(count := Wrap(r.count - 1)), pc := Return(c), taken := s.taken + [c])
    case Return(c) => s.(pc := Test, results := s.results + [c])
    case Store(c, t) => s.(ring := r.(count := Wrap(t - 1)), pc := Return(c), taken := s.taken + [c])
  }

  function Next(s: State, m: Move): State {
    match m
    case Put(c) => AfterPut(s, c)
    case Reader => AfterReader(s)
    case SplitLoad => if s.pc.Drop? then s.(pc := Store(s.pc.c, s.ring.count)) else s
  }

  function Run(s: State, moves: seq<Move>): State
    decreases |moves|
  {
    if moves == [] then s else Run(Next(s, moves[0]), moves[1..])
  }

  /** `keyboard_getchar` on the ring when no interrupt intervenes and a byte waits. */
  function TakeRing(r: Ring): Ring {
    r.(head := Slot(r.head, 1), count := Wrap(r.count - 1))
  }

  /** Left alone, the reader's statements are one `keyboard_getchar`. */
  lemma UninterruptedRead(s: State)
    requires s.pc.Test?
    ensures s.ring.count == 0 ==> AfterReader(s) == s.(results := s.results + [-1])
    ensures s.ring.count > 0 ==>
              var c := s.ring.slots[s.ring.head];
              AfterReader(AfterReader(AfterReader(AfterReader(AfterReader(s))))) ==
              s.(ring := TakeRing(s.ring), taken := s.taken + [c], results := s.results + [c])
  {
  }

  function Start(slots: seq<byte>): State
    requires |slots| == SIZE
  {
    State(RingData(slots, 0, 0, 0), Test, [], [], [])
  }

  // ------------------------------------------------------------------- the queue

  /** The queue the ring stands for. A byte leaves it at the decrement, not at the load. */
  function Queue(s: State): seq<byte> {
    var r := s.ring;
    if s.pc.Drop? && r.count > 0 then [s.pc.c] + From(r.slots, r.head, r.count - 1)
    else From(r.slots, r.head, r.count)
  }

  /** Bytes between `head` and `tail`: one less than `count` while the reader is mid-take. */
  function Between(s: State): int {
    if s.pc.Drop? then s.ring.count - 1 else s.ring.count
  }

  function InFlight(s: State): seq<byte> {
    if s.pc.Return? then [s.pc.c] else []
  }

  predicate Inv(s: State) {
    && Spans(s.ring, Between(s))
    && s.ring.count <= SIZE
    && (s.pc.Load? || s.pc.Bump? || s.pc.Drop? ==> s.ring.count > 0)
    && (s.pc.Bump? ==> s.pc.c == s.ring.slots[s.ring.head])
    && !s.pc.Store?
    && s.accepted == s.taken + Queue(s)
    && Bytes(s.results) + InFlight(s) == s.taken
  }

  /** Every step is a step of the queue: a put appends when fewer than 256 wait and is
      otherwise refused, the decrement removes the oldest, and no other step shows. */
  lemma StepRefinesQueue(s: State, m: Move)
    requires Inv(s) && !m.SplitLoad?
    ensures Inv(Next(s, m))
    ensures |Queue(s)| == s.ring.count
    ensures Queue(Next(s, m)) ==
            match m {
              case Put(c) => if |Queue(s)| < SIZE then Queue(s) + [c] else Queue(s)
              case Reader => if s.pc.Drop? then Queue(s)[1..] else Queue(s)
              case SplitLoad => Queue(s)
            }
    ensures m.Reader? && s.pc.Drop? ==> Queue(s)[0] == s.pc.c
    ensures m.Reader? && s.pc.Test? ==> (Next(s, m).results == s.results + [-1] <==> Queue(s) == [])
  {
    match m
    case Put(c) => PutRefines(s, c);
    case Reader => ReaderRefines(s);
  }

  lemma TailApart(r: Ring, n: nat, k: nat)
    requires Spans(r, n) && k < n < SIZE
    ensures Slot(r.head, k) != r.tail && (k == 0 ==> r.head != r.tail)
  {
    SlotFacts(r.head, k, n);
  }

  lemma PutRefines(s: State, c: byte)
    requires Inv(s)
    ensures Inv(AfterPut(s, c))
    ensures Queue(AfterPut(s, c)) == if s.ring.count < SIZE then Queue(s) + [c] else Queue(s)
  {
    hide From, Bytes, Slot;
    if s.ring.count < SIZE {
      StoreAppends(s.ring, Between(s), c);
      if s.pc.Bump? {
        TailApart(s.ring, Between(s), 0);
      }
      assert Queue(AfterPut(s, c)) == Queue(s) + [c];
      assert s.accepted + [c] == s.taken + (Queue(s) + [c]);
    }
  }

  lemma ReaderRefines(s: State)
    requires Inv(s)
    ensures Inv(AfterReader(s))
    ensures Queue(AfterReader(s)) == if s.pc.Drop? then Queue(s)[1..] else Queue(s)
    ensures s.pc.Drop? ==> Queue(s)[0] == s.pc.c
  {
    hide From, Bytes;
    var s' := AfterReader(s);
    match s.pc
    case Test => BytesAppend(s.results, -1);
    case Load =>
    case Bump(c) => AdvanceDrops(s.ring, s.ring.count);
    case Drop(c) => assert s.accepted == s'.taken + Queue(s)[1..];
    case Return(c) => BytesAppend(s.results, c);
  }

  lemma {:induction false} RunKeepsInv(s: State, moves: seq<Move>)
    requires Inv(s) && forall i :: 0 <= i < |moves| ==> !moves[i].SplitLoad?
    ensures Inv(Run(s, moves))
    decreases |moves|
  {
    hide From, Bytes, Next, Queue;
    if moves == [] {
    } else {
      StepRefinesQueue(s, moves[0]);
      RunKeepsInv(Next(s, moves[0]), moves[1..]);
    }
  }

  /** Over every interleaving from an empty ring: the bytes accepted are the bytes returned,
      then the one being returned, then at most 256 still queued, all in order; what is
      returned besides -1 is always one of them. */
  lemma EveryInterleavingFifo(slots: seq<byte>, moves: seq<Move>)
    requires |slots| == SIZE && forall i :: 0 <= i < |moves| ==> !moves[i].SplitLoad?
    ensures var t := Run(Start(slots), moves);
            && t.accepted == Bytes(t.results) + InFlight(t) + Queue(t)
            && |Queue(t)| == t.ring.count <= SIZE
            && Spans(t.ring, Between(t))
  {
    hide From, Next;
    StartInv(slots);
    RunKeepsInv(Start(slots), moves);
    QueueSize(Run(Start(slots), moves));
  }

  lemma QueueSize(s: State)
    requires Inv(s)
    ensures |Queue(s)| == s.ring.count
  {
  }

  lemma StartInv(slots: seq<byte>)
    requires |slots| == SIZE
    ensures Inv(Start(slots))
  {
  }

  /** A put never lands on a slot still to be read. */
  lemma PutSparesUnread(s: State, c: byte, k: nat)
    requires Inv(s) && k < Between(s)
    ensures var i := Slot(s.ring.head, k); AfterPut(s, c).ring.slots[i] == s.ring.slots[i]
  {
    hide From, Bytes, Slot, Queue;
    if s.ring.count < SIZE {
      TailApart(s.ring, Between(s), k);
    }
  }

  // ------------------------------------------------- when count-- is not one step

  function Puts(bytes: seq<byte>): seq<Move> {
    seq(|bytes|, i requires 0 <= i < |bytes| => Put(bytes[i]))
  }

  lemma {:induction false} PutsWhileStoring(s: State, bytes: seq<byte>)
    requires s.pc.Store? && s.ring.count <= SIZE
    ensures var t := Run(s, Puts(bytes));
            && t.pc == s.pc && t.ring.head == s.ring.head
            && t.ring.count == Min(SIZE, s.ring.count + |bytes|)
            && s.ring.count <= t.ring.count && t.ring.tail == Slot(s.ring.tail, t.ring.count - s.ring.count)
    decreases |bytes|
  {
    if bytes == [] {
    } else {
      assert Puts(bytes)[1..] == Puts(bytes[1..]);
      var s1 := AfterPut(s, bytes[0]);
      PutsWhileStoring(s1, bytes[1..]);
      SlotFacts(s.ring.tail, 1, Run(s1, Puts(bytes[1..])).ring.count - s1.ring.count);
    }
  }

  /** If the decrement is a load and a store, puts may fall between them. Their increments are
      then overwritten, and the ring still agrees with its count exactly when none of them was
      accepted: there was none, or the ring was full. */
  lemma SplitDecrementExact(s: State, bytes: seq<byte>)
    requires Inv(s) && s.pc.Drop?
    ensures var t := Run(Next(s, SplitLoad), Puts(bytes));
            var u := Next(t, Reader);
            && u.ring.count == s.ring.count - 1
            && (Spans(u.ring, Between(u)) <==> bytes == [] || s.ring.count == SIZE)
  {
    hide Run, Puts, Slot;
    var s1 := Next(s, SplitLoad);
    PutsWhileStoring(s1, bytes);
    var t := Run(s1, Puts(bytes));
    var k := t.ring.count - s.ring.count;
    assert k == 0 <==> bytes == [] || s.ring.count == SIZE;
    TailMoves(s.ring.head, s.ring.count - 1, k);
  }

  lemma TailMoves(head: nat, n: nat, k: nat)
    requires head < SIZE && k < SIZE
    ensures Slot(Slot(head, n), k) == Slot(head, n) <==> k == 0
  {
    SlotFacts(head, n, k);
    Rounds(head + n, k);
  }

  /** A lost character: one byte waits, the reader is about to decrement, and a second byte
      arrives between the load and the store. The ring then holds a byte it counts as none. */
  lemma SplitDecrementLoses(slots: seq<byte>)
    requires |slots| == SIZE
    ensures var s := Run(Start(slots), [Put(65), Reader, Reader, Reader]);
            && Inv(s) && s.pc.Drop?
            && var u := Next(Run(Next(s, SplitLoad), Puts([66])), Reader);
               && u.accepted == [65, 66] && u.taken == [65]
               && u.ring.count == 0 && !Spans(u.ring, Between(u))
  {
    var s0 := Start(slots);
    var s1 := AfterPut(s0, 65);
    var s := AfterReader(AfterReader(AfterReader(s1)));
    assert s == Run(s0, [Put(65), Reader, Reader, Reader]) by {
      assert [Put(65), Reader, Reader, Reader][1..] == [Reader, Reader, Reader];
      assert [Reader, Reader, Reader][1..] == [Reader, Reader] && [Reader, Reader][1..] == [Reader];
      assert [Reader][1..] == [] && Run(s, []) == s;
      assert Run(AfterReader(AfterReader(s1)), [Reader]) == s;
    }
    RunKeepsInv(s0, [Put(65), Reader, Reader, Reader]);
    var t := Next(s, SplitLoad);
    assert Puts([66])[1..] == [] && Run(t, Puts([66])) == AfterPut(t, 66);
    SplitDecrementExact(s, [66]);
  }
}
