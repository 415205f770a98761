/**
 The single-producer, single-consumer ring of include/queue_r.h under every interleaving.

 Each load and store of a shared index is a step of its own, and so is each byte that the producer
 writes into an allocated block or the consumer reads from a peeked one. Indices that a side has
 loaded may be out of date by the time it acts on them.

 Beside the shared memory the state carries the history the properties speak about: the blocks
 `pushed` so far, and for each block already given up by the consumer the bytes it `took` from it.
 */
module RingQueue {
  import opened Bytes

  datatype Config = Config(bSize: nat, arraySize: nat)

  datatype Producer =
    | Idle
    | Allocating(w: nat)                    // queue_alloc has loaded m_write
    | Writing(w: nat, image: seq<Byte>)     // holds the block at slot w; image is what it has put there
    | Committing(next: nat, image: seq<Byte>)

  datatype Consumer =
    | Resting
    | Peeking(r: nat)                       // queue_peek has loaded m_read
    | Reading(r: nat)                       // may read the block at slot r
    | Skipping(n: nat)                      // head of the loop in queue_discard
    | SkipChecking(n: nat, r: nat)
    | SkipStoring(n: nat, r: nat)
    | Clearing(w: nat, mark: nat)           // m_write as loaded, when `mark` blocks had been pushed

  datatype State = State(
    mem: seq<Byte>, mWrite: nat, mRead: nat,
    producer: Producer, consumer: Consumer,
    pushed: seq<seq<Byte>>, took: seq<map<nat, Byte>>, got: map<nat, Byte>)

  datatype Action =
    | AllocLoad | AllocCheck | PutByte(k: nat, v: Byte) | GiveUp | CommitLoad | CommitStore
    | PeekLoad | PeekCheck | GetByte(k: nat) | DiscardBegin(n: nat) | DiscardLoad | DiscardCheck | DiscardStore
    | DiscardEnd | ClearLoad | ClearStore

  // ---------- queue_create and the index arithmetic ----------

  predicate Usable(c: Config)
  {
    0 < c.bSize <= c.arraySize
  }

  /** The a_len of queue_create. */
  function Slots(c: Config): nat
    requires Usable(c)
  {
    c.arraySize / c.bSize
  }

  function Wrap(i: nat, n: nat): nat
    requires n > 0
  {
    i % n
  }

  /** Where the block at slot `i` begins. */
  function Base(c: Config, i: nat): nat
  {
    i * c.bSize
  }

  /** The slots are as many blocks as fit into the array. */
  lemma {:induction false} SlotsFit(c: Config)
    requires Usable(c)
    ensures 0 < Slots(c) && Base(c, Slots(c)) <= c.arraySize < Base(c, Slots(c) + 1)
  {
    MulNext(Slots(c), c.bSize);
  }

  lemma {:induction false} MulNext(i: nat, b: nat)
    ensures (i + 1) * b == i * b + b
  {
  }

  lemma {:induction false} BaseOrder(c: Config, i: nat, j: nat)
    requires i < j
    ensures Base(c, i) + c.bSize <= Base(c, j)
    decreases j
  {
    MulNext(j - 1, c.bSize);
    if i < j - 1 {
      BaseOrder(c, i, j - 1);
    }
  }

  lemma {:induction false} SlotFits(c: Config, i: nat)
    requires Usable(c) && i < Slots(c)
    ensures Base(c, i) + c.bSize <= c.arraySize
  {
    SlotsFit(c);
    BaseOrder(c, i, Slots(c));
  }

  lemma {:induction false} WrapIn(i: nat, n: nat)
    requires n > 0
    ensures Wrap(i, n) < n
  {
  }

  lemma {:induction false} Multiple(n: nat, d: int)
    ensures d >= 1 ==> n * d >= n
    ensures d <= -1 ==> n * d + n <= 0
  {
  }

  lemma {:induction false} Quotient(x: nat, n: nat, q: nat, r: nat)
    requires n > 0 && r < n && x == q * n + r
    ensures x / n == q && x % n == r
  {
    var d := x / n - q;
    assert x == n * (x / n) + x % n;
    assert n * (x / n) - n * q == n * d;
    Multiple(n, d);
  }

  /** `i` lies `r` slots into the `q`-th turn. */
  predicate Turn(i: nat, n: nat, q: nat, r: nat)
  {
    r < n && i == q * n + r
  }

  lemma {:induction false} WrapTurn(i: nat, n: nat, q: nat, r: nat)
    requires Turn(i, n, q, r)
    ensures Wrap(i, n) == r
  {
    Quotient(i, n, q, r);
  }

  lemma {:induction false} TurnOf(i: nat, n: nat) returns (q: nat, r: nat)
    requires n > 0
    ensures Turn(i, n, q, r) && Wrap(i, n) == r
  {
    q, r := i / n, i % n;
  }

  lemma {:induction false} Ahead(i: nat, n: nat, q: nat, r: nat, d: nat)
    requires Turn(i, n, q, r) && d <= n
    ensures Wrap(i + d, n) == if r + d < n then r + d else r + d - n
  {
    MulNext(q, n);
    if r + d < n {
      WrapTurn(i + d, n, q, r + d);
    } else {
      WrapTurn(i + d, n, q + 1, r + d - n);
    }
  }

  /** Indices less than a full turn apart are different slots; a full turn apart they are the same. */
  lemma {:induction false} WrapApart(i: nat, j: nat, n: nat)
    requires n > 0 && i <= j <= i + n
    ensures Wrap(i, n) == Wrap(j, n) <==> (j == i || j == i + n)
  {
    var q, r := TurnOf(i, n);
    Ahead(i, n, q, r, j - i);
  }

  lemma {:induction false} WrapNext(i: nat, n: nat)
    requires n > 0
    ensures Wrap(Wrap(i, n) + 1, n) == Wrap(i + 1, n)
  {
    var q, r := TurnOf(i, n);
    Ahead(i, n, q, r, 1);
    Ahead(r, n, 0, r, 1);
  }

  // ---------- the steps ----------

  function Init(c: Config, mem: seq<Byte>): State
  {
    State(mem, 0, 0, Idle, Resting, [], [], map[])
  }

  predicate Can(c: Config, s: State, a: Action)
  {
    match a
    case AllocLoad => s.producer.Idle?
    case AllocCheck => s.producer.Allocating?
    case PutByte(k, v) => s.producer.Writing? && k < c.bSize
    case GiveUp => s.producer.Writing?
    case CommitLoad => s.producer.Writing?
    case CommitStore => s.producer.Committing?
    case PeekLoad => s.consumer.Resting? || s.consumer.Reading?
    case PeekCheck => s.consumer.Peeking?
    case GetByte(k) => s.consumer.Reading? && k < c.bSize
    case DiscardBegin(n) => s.consumer.Resting? || s.consumer.Reading?
    case DiscardLoad => s.consumer.Skipping? && s.consumer.n > 0
    case DiscardCheck => s.consumer.SkipChecking?
    case DiscardStore => s.consumer.SkipStoring?
    case DiscardEnd => s.consumer.Skipping? && s.consumer.n == 0
    case ClearLoad => s.consumer.Resting? || s.consumer.Reading?
    case ClearStore => s.consumer.Clearing?
  }

  /** The bytes at `o`, as long as a block. */
  function Block(c: Config, mem: seq<Byte>, i: nat): seq<Byte>
  {
    if Base(c, i) + c.bSize <= |mem| then mem[Base(c, i)..Base(c, i) + c.bSize] else []
  }

  function Load(mem: seq<Byte>, o: nat): Byte
  {
    if o < |mem| then mem[o] else 0
  }

  function Store(mem: seq<Byte>, o: nat, v: Byte): seq<Byte>
  {
    if o < |mem| then mem[o := v] else mem
  }

  /** What the consumer took from `n` blocks that it gives up, having read `got` of the first. */
  function Given(got: map<nat, Byte>, n: int): (r: seq<map<nat, Byte>>)
    ensures |r| == if n <= 0 then 0 else n
    decreases n
  {
    if n <= 0 then [] else Given(got, n - 1) + [if n == 1 then got else map[]]
  }

  function ProducerStep(c: Config, s: State, a: Action): State
    requires Usable(c) && Can(c, s, a)
  {
    var n := Slots(c);
    match s.producer
    case Idle => if a.AllocLoad? then s.(producer := Allocating(s.mWrite)) else s
    case Allocating(w) =>
      if !a.AllocCheck? then s
      else if Wrap(w + 1, n) == s.mRead then s.(producer := Idle)
      else s.(producer := Writing(w, Block(c, s.mem, w)))
    case Writing(w, image) =>
      if a.PutByte? then
        s.(mem := Store(s.mem, Base(c, w) + a.k, a.v), producer := Writing(w, Store(image, a.k, a.v)))
      else if a.GiveUp? then s.(producer := Idle)
      else if a.CommitLoad? then s.(producer := Committing(Wrap(s.mWrite + 1, n), image))
      else s
    case Committing(next, image) =>
      if a.CommitStore? then s.(mWrite := next, producer := Idle, pushed := s.pushed + [image]) else s
  }

  function ConsumerStep(c: Config, s: State, a: Action): State
    requires Usable(c) && Can(c, s, a)
  {
    var n := Slots(c);
    match a
    case PeekLoad => s.(consumer := Peeking(s.mRead))
    case PeekCheck =>
      if s.consumer.r == s.mWrite then s.(consumer := Resting) else s.(consumer := Reading(s.consumer.r))
    case GetByte(k) => s.(got := s.got[k := Load(s.mem, Base(c, s.consumer.r) + k)])
    case DiscardBegin(count) => s.(consumer := Skipping(count))
    case DiscardLoad => s.(consumer := SkipChecking(s.consumer.n - 1, s.mRead))
    case DiscardCheck =>
      if s.consumer.r == s.mWrite then s.(consumer := Resting)
      else s.(consumer := SkipStoring(s.consumer.n, s.consumer.r))
    case DiscardStore =>
      s.(mRead := Wrap(s.consumer.r + 1, n), consumer := Skipping(s.consumer.n),
         took := s.took + Given(s.got, 1), got := map[])
    case DiscardEnd => s.(consumer := Resting)
    case ClearLoad => s.(consumer := Clearing(s.mWrite, |s.pushed|))
    case ClearStore =>
      s.(mRead := s.consumer.w, consumer := Resting,
         took := s.took + Given(s.got, s.consumer.mark - |s.took|), got := map[])
    case _ => s
  }

  predicate ByProducer(a: Action)
  {
    a.AllocLoad? || a.AllocCheck? || a.PutByte? || a.GiveUp? || a.CommitLoad? || a.CommitStore?
  }

  function Next(c: Config, s: State, a: Action): State
    requires Usable(c) && Can(c, s, a)
  {
    if ByProducer(a) then ProducerStep(c, s, a) else ConsumerStep(c, s, a)
  }

  // ---------- what every step keeps ----------

  /** The blocks still in the queue, oldest first. */
  function Contents(s: State): seq<seq<Byte>>
    requires |s.took| <= |s.pushed|
  {
    s.pushed[|s.took|..]
  }

  predicate Indices(c: Config, s: State)
    requires Usable(c)
  {
    && |s.took| <= |s.pushed| < |s.took| + Slots(c)
    && s.mRead == Wrap(|s.took|, Slots(c))
    && s.mWrite == Wrap(|s.pushed|, Slots(c))
  }

  predicate Stored(c: Config, s: State)
    requires Usable(c)
  {
    && |s.mem| == c.arraySize
    && (forall i :: |s.took| <= i < |s.pushed| ==> Block(c, s.mem, Wrap(i, Slots(c))) == s.pushed[i])
    && (forall i :: 0 <= i < |s.pushed| ==> |s.pushed[i]| == c.bSize)
  }

  predicate ProducerInv(c: Config, s: State)
    requires Usable(c)
  {
    var n := Slots(c);
    match s.producer
    case Idle => true
    case Allocating(w) => w == Wrap(|s.pushed|, n)
    case Writing(w, image) =>
      w == Wrap(|s.pushed|, n) && |s.pushed| + 1 < |s.took| + n && |image| == c.bSize && Block(c, s.mem, w) == image
    case Committing(next, image) =>
      && next == Wrap(|s.pushed| + 1, n) && |s.pushed| + 1 < |s.took| + n && |image| == c.bSize
      && Block(c, s.mem, Wrap(|s.pushed|, n)) == image
  }

  /** `part` is what `block` has at some of its positions. */
  predicate PartOf(part: map<nat, Byte>, block: seq<Byte>)
  {
    forall k :: k in part ==> k < |block| && part[k] == block[k]
  }

  predicate ConsumerInv(c: Config, s: State)
    requires Usable(c)
  {
    var n, d := Slots(c), |s.took|;
    && (s.got == map[] || (d < |s.pushed| && PartOf(s.got, s.pushed[d])))
    && match s.consumer
       case Resting => true
       case Peeking(r) => r == Wrap(d, n)
       case Reading(r) => r == Wrap(d, n) && d < |s.pushed|
       case Skipping(m) => true
       case SkipChecking(m, r) => r == Wrap(d, n)
       case SkipStoring(m, r) => r == Wrap(d, n) && d < |s.pushed|
       case Clearing(w, mark) => d <= mark <= |s.pushed| && w == Wrap(mark, n)
  }

  predicate Taken(s: State)
  {
    |s.took| <= |s.pushed| && forall i :: 0 <= i < |s.took| ==> PartOf(s.took[i], s.pushed[i])
  }

  predicate Inv(c: Config, s: State)
    requires Usable(c)
  {
    && Indices(c, s) == true && Stored(c, s) == true && ProducerInv(c, s) == true && ConsumerInv(c, s) == true
    && Taken(s) == true
  }

  lemma {:induction false} InitInv(c: Config, mem: seq<Byte>)
    requires Usable(c) && |mem| == c.arraySize
    ensures Inv(c, Init(c, mem))
  {
    SlotsFit(c);
    Quotient(0, Slots(c), 0, 0);
  }

  lemma {:induction false} BlockSize(c: Config, mem: seq<Byte>, i: nat)
    requires Usable(c) && |mem| == c.arraySize && i < Slots(c)
    ensures |Block(c, mem, i)| == c.bSize && Base(c, i) + c.bSize <= |mem|
    ensures forall k :: 0 <= k < c.bSize ==> Block(c, mem, i)[k] == mem[Base(c, i) + k]
  {
    SlotFits(c, i);
  }

  lemma {:induction false} AllocCheckInv(c: Config, s: State)
    requires Usable(c) && Inv(c, s) && Can(c, s, AllocCheck)
    ensures Inv(c, Next(c, s, AllocCheck))
    ensures Next(c, s, AllocCheck).producer.Idle? <==> |Contents(s)| == Slots(c) - 1
  {
    var n := Slots(c);
    SlotsFit(c);
    WrapNext(|s.pushed|, n);
    WrapApart(|s.took|, |s.pushed| + 1, n);
    WrapIn(|s.pushed|, n);
    BlockSize(c, s.mem, Wrap(|s.pushed|, n));
  }

  /** A byte stored in one block leaves the others alone. */
  lemma {:induction false} StoreBlock(c: Config, mem: seq<Byte>, w: nat, k: nat, v: Byte, i: nat)
    requires Usable(c) && |mem| == c.arraySize && w < Slots(c) && i < Slots(c) && k < c.bSize
    ensures Block(c, Store(mem, Base(c, w) + k, v), i) ==
            if i == w then Store(Block(c, mem, w), k, v) else Block(c, mem, i)
  {
    SlotFits(c, w);
    SlotFits(c, i);
    if i < w {
      BaseOrder(c, i, w);
    } else if w < i {
      BaseOrder(c, w, i);
    }
  }

  lemma {:induction false} PutByteInv(c: Config, s: State, k: nat, v: Byte)
    requires Usable(c) && Inv(c, s) && Can(c, s, PutByte(k, v))
    ensures Inv(c, Next(c, s, PutByte(k, v)))
  {
    var n, w, s' := Slots(c), s.producer.w, Next(c, s, PutByte(k, v));
    WrapIn(|s.pushed|, n);
    StoreBlock(c, s.mem, w, k, v, w);
    forall i | |s.took| <= i < |s.pushed|
      ensures Block(c, s'.mem, Wrap(i, n)) == s.pushed[i]
    {
      WrapIn(i, n);
      WrapApart(i, |s.pushed|, n);
      StoreBlock(c, s.mem, w, k, v, Wrap(i, n));
    }
  }

  lemma {:induction false} CommitStoreInv(c: Config, s: State)
    requires Usable(c) && Inv(c, s) && Can(c, s, CommitStore)
    ensures Inv(c, Next(c, s, CommitStore))
    ensures Contents(Next(c, s, CommitStore)) == Contents(s) + [s.producer.image]
  {
  }

  lemma {:induction false} CommitLoadInv(c: Config, s: State)
    requires Usable(c) && Inv(c, s) && Can(c, s, CommitLoad)
    ensures Inv(c, Next(c, s, CommitLoad))
  {
    WrapNext(|s.pushed|, Slots(c));
  }

  lemma {:induction false} PeekCheckInv(c: Config, s: State)
    requires Usable(c) && Inv(c, s) && Can(c, s, PeekCheck)
    ensures Inv(c, Next(c, s, PeekCheck))
    ensures Next(c, s, PeekCheck).consumer.Resting? <==> Contents(s) == []
  {
    WrapApart(|s.took|, |s.pushed|, Slots(c));
  }

  lemma {:induction false} GetByteInv(c: Config, s: State, k: nat)
    requires Usable(c) && Inv(c, s) && Can(c, s, GetByte(k))
    ensures Inv(c, Next(c, s, GetByte(k)))
  {
    var d, n := |s.took|, Slots(c);
    WrapIn(d, n);
    BlockSize(c, s.mem, Wrap(d, n));
    assert Block(c, s.mem, Wrap(d, n)) == s.pushed[d];
  }

  lemma {:induction false} DiscardCheckInv(c: Config, s: State)
    requires Usable(c) && Inv(c, s) && Can(c, s, DiscardCheck)
    ensures Inv(c, Next(c, s, DiscardCheck))
    ensures Next(c, s, DiscardCheck).consumer.Resting? <==> Contents(s) == []
  {
    WrapApart(|s.took|, |s.pushed|, Slots(c));
  }

  lemma {:induction false} GivenAt(got: map<nat, Byte>, n: int, i: nat)
    requires i < n
    ensures Given(got, n)[i] == if i == 0 then got else map[]
    decreases n
  {
    if i < n - 1 {
      GivenAt(got, n - 1, i);
    }
  }

  lemma {:induction false} TakenMore(s: State, n: nat)
    requires Taken(s) && |s.took| + n <= |s.pushed|
    requires s.got == map[] || (|s.took| < |s.pushed| && PartOf(s.got, s.pushed[|s.took|]))
    ensures Taken(s.(took := s.took + Given(s.got, n), got := map[])) == true
  {
    var took := s.took + Given(s.got, n);
    forall i | 0 <= i < |took|
      ensures PartOf(took[i], s.pushed[i])
    {
      if i >= |s.took| {
        GivenAt(s.got, n, i - |s.took|);
      }
    }
  }

  lemma {:induction false} DiscardStoreInv(c: Config, s: State)
    requires Usable(c) && Inv(c, s) && Can(c, s, DiscardStore)
    ensures Inv(c, Next(c, s, DiscardStore))
    ensures Contents(s) != [] && Contents(Next(c, s, DiscardStore)) == Contents(s)[1..]
  {
    WrapNext(|s.took|, Slots(c));
    TakenMore(s, 1);
  }

  /** A clear from the pop end drops exactly the blocks that were committed when it loaded m_write. */
  lemma {:induction false} ClearStoreInv(c: Config, s: State)
    requires Usable(c) && Inv(c, s) && Can(c, s, ClearStore)
    ensures Inv(c, Next(c, s, ClearStore))
    ensures |s.took| <= s.consumer.mark <= |s.pushed|
    ensures Contents(Next(c, s, ClearStore)) == Contents(s)[s.consumer.mark - |s.took|..]
  {
    TakenMore(s, s.consumer.mark - |s.took|);
  }

  lemma {:induction false} StepInv(c: Config, s: State, a: Action)
    requires Usable(c) && Inv(c, s) && Can(c, s, a)
    ensures Inv(c, Next(c, s, a))
  {
    match a
    case AllocCheck => AllocCheckInv(c, s);
    case PutByte(k, v) => PutByteInv(c, s, k, v);
    case CommitLoad => CommitLoadInv(c, s);
    case CommitStore => CommitStoreInv(c, s);
    case PeekCheck => PeekCheckInv(c, s);
    case GetByte(k) => GetByteInv(c, s, k);
    case DiscardCheck => DiscardCheckInv(c, s);
    case DiscardStore => DiscardStoreInv(c, s);
    case ClearStore => ClearStoreInv(c, s);
    case _ =>
  }

  // ---------- whole runs ----------

  datatype Run = Begin(mem: seq<Byte>) | Then(run: Run, a: Action)

  /** A run from a fresh control block in which every step is one the side was ready to take. */
  predicate Legal(c: Config, run: Run)
    requires Usable(c)
  {
    match run
    case Begin(mem) => |mem| == c.arraySize
    case Then(r, a) => Legal(c, r) && Can(c, After(c, r), a)
  }

  function After(c: Config, run: Run): State
    requires Usable(c)
  {
    match run
    case Begin(mem) => Init(c, mem)
    case Then(r, a) => if Can(c, After(c, r), a) then Next(c, After(c, r), a) else After(c, r)
  }

  lemma {:induction false} RunInv(c: Config, run: Run)
    requires Usable(c) && Legal(c, run)
    ensures Inv(c, After(c, run))
  {
    match run
    case Begin(mem) => InitInv(c, mem);
    case Then(r, a) =>
      RunInv(c, r);
      StepInv(c, After(c, r), a);
  }

  /** The bytes taken from a block that was read from end to end. */
  function Whole(part: map<nat, Byte>, n: nat): (r: seq<Byte>)
    requires forall k :: 0 <= k < n ==> k in part
    ensures |r| == n && forall k :: 0 <= k < n ==> r[k] == part[k]
  {
    if n == 0 then [] else Whole(part, n - 1) + [part[n - 1]]
  }

  predicate ReadThrough(c: Config, part: map<nat, Byte>)
  {
    forall k :: 0 <= k < c.bSize ==> k in part
  }

  /**
   In every run the blocks leave in the order they came and no block leaves twice or changes on the
   way: what was taken from the i-th block to leave is what the i-th block pushed has there.
   */
  lemma {:induction false} PoppedIsPrefix(c: Config, run: Run, i: nat)
    requires Usable(c) && Legal(c, run) && i < |After(c, run).took|
    ensures var s := After(c, run);
            && i < |s.pushed| && PartOf(s.took[i], s.pushed[i])
            && (ReadThrough(c, s.took[i]) ==> Whole(s.took[i], c.bSize) == s.pushed[i])
  {
    RunInv(c, run);
  }

  /** The queue holds at most one block less than it has slots, which is one less than fit into the array. */
  lemma {:induction false} Occupancy(c: Config, run: Run)
    requires Usable(c) && Legal(c, run)
    ensures var s := After(c, run);
            |s.took| <= |s.pushed| && |Contents(s)| <= Slots(c) - 1 && (|Contents(s)| + 1) * c.bSize <= c.arraySize
  {
    RunInv(c, run);
    SlotFits(c, |Contents(After(c, run))|);
    MulNext(|Contents(After(c, run))|, c.bSize);
  }

  /** `n` blocks allocated and committed as they are, one after the other. */
  function Filling(mem: seq<Byte>, n: nat): Run
  {
    if n == 0 then Begin(mem)
    else Then(Then(Then(Then(Filling(mem, n - 1), AllocLoad), AllocCheck), CommitLoad), CommitStore)
  }

  /** The producer rests, `n` blocks have been committed and none is gone. */
  predicate Ready(c: Config, s: State, n: nat)
    requires Usable(c)
  {
    s.producer == Idle && s.took == [] && |s.pushed| == n && s.mWrite == Wrap(n, Slots(c)) && s.mRead == 0
  }

  /** What the four steps make of a state. */
  lemma {:induction false} FourSteps(c: Config, s: State, n: nat)
    requires Usable(c) && Ready(c, s, n) && n + 1 < Slots(c)
    ensures Can(c, s, AllocLoad)
    ensures var s1 := Next(c, s, AllocLoad);
            && Can(c, s1, AllocCheck)
            && var s2 := Next(c, s1, AllocCheck);
               && Can(c, s2, CommitLoad)
               && var s3 := Next(c, s2, CommitLoad);
                  Can(c, s3, CommitStore) && Ready(c, Next(c, s3, CommitStore), n + 1) == true
  {
    WrapTurn(n, Slots(c), 0, n);
    WrapTurn(n + 1, Slots(c), 0, n + 1);
  }

  lemma {:induction false} PushesOne(c: Config, run: Run, n: nat)
    requires Usable(c) && Legal(c, run) && Ready(c, After(c, run), n) && n + 1 < Slots(c)
    ensures var r := Then(Then(Then(Then(run, AllocLoad), AllocCheck), CommitLoad), CommitStore);
            Legal(c, r) && Ready(c, After(c, r), n + 1) == true
  {
    FourSteps(c, After(c, run), n);
    var r1 := Then(run, AllocLoad);
    assert Legal(c, r1) && After(c, r1) == Next(c, After(c, run), AllocLoad);
    var r2 := Then(r1, AllocCheck);
    assert Legal(c, r2) && After(c, r2) == Next(c, After(c, r1), AllocCheck);
    var r3 := Then(r2, CommitLoad);
    assert Legal(c, r3) && After(c, r3) == Next(c, After(c, r2), CommitLoad);
  }

  lemma {:induction false} FillingFills(c: Config, mem: seq<Byte>, n: nat)
    requires Usable(c) && |mem| == c.arraySize && n < Slots(c)
    ensures Legal(c, Filling(mem, n)) && Ready(c, After(c, Filling(mem, n)), n) == true
  {
    if n == 0 {
      WrapTurn(0, Slots(c), 0, 0);
    } else {
      FillingFills(c, mem, n - 1);
      PushesOne(c, Filling(mem, n - 1), n - 1);
    }
  }

  /** That many can be held: in every array some run holds all the blocks that fit into it but one. */
  lemma {:induction false} FillsUp(c: Config, mem: seq<Byte>) returns (run: Run)
    requires Usable(c) && |mem| == c.arraySize
    ensures Legal(c, run)
    ensures var s := After(c, run);
            && |s.took| <= |s.pushed|
            && (|Contents(s)| + 1) * c.bSize <= c.arraySize < (|Contents(s)| + 2) * c.bSize
  {
    SlotsFit(c);
    run := Filling(mem, Slots(c) - 1);
    FillingFills(c, mem, Slots(c) - 1);
    var s := After(c, run);
    assert |Contents(s)| == Slots(c) - 1;
    assert Base(c, Slots(c)) == (|Contents(s)| + 1) * c.bSize && Base(c, Slots(c) + 1) == (|Contents(s)| + 2) * c.bSize;
  }

  /** Different blocks have no byte in common. */
  lemma {:induction false} BlocksApart(c: Config, i: nat, j: nat, k: nat, l: nat)
    requires i != j && k < c.bSize && l < c.bSize
    ensures Base(c, i) + k != Base(c, j) + l
  {
    if i < j {
      BaseOrder(c, i, j);
    } else {
      BaseOrder(c, j, i);
    }
  }

  lemma {:induction false} WrittenSlot(c: Config, run: Run, i: nat)
    requires Usable(c) && Legal(c, run) && After(c, run).producer.Writing?
    requires |After(c, run).took| <= i < |After(c, run).pushed|
    ensures After(c, run).producer.w != Wrap(i, Slots(c))
  {
    RunInv(c, run);
    WrapApart(i, |After(c, run).pushed|, Slots(c));
  }

  /** The `k`-th byte of the block being written is no byte of a block in the queue, so none that is being read. */
  lemma {:induction false} NeverReadWhileWritten(c: Config, run: Run, i: nat, k: nat, l: nat)
    requires Usable(c) && Legal(c, run) && After(c, run).producer.Writing? && k < c.bSize && l < c.bSize
    ensures var s := After(c, run);
            && (|s.took| <= i < |s.pushed| ==> Base(c, s.producer.w) + k != Base(c, Wrap(i, Slots(c))) + l)
            && (s.consumer.Reading? ==> Base(c, s.producer.w) + k != Base(c, s.consumer.r) + l)
  {
    RunInv(c, run);
    var s := After(c, run);
    if |s.took| <= i < |s.pushed| {
      WrittenSlot(c, run, i);
      BlocksApart(c, s.producer.w, Wrap(i, Slots(c)), k, l);
    }
    if s.consumer.Reading? {
      WrittenSlot(c, run, |s.took|);
      BlocksApart(c, s.producer.w, s.consumer.r, k, l);
    }
  }

  // ---------- queue_is_empty and queue_is_full ----------

  /** What queue_is_empty answers when it has loaded these indices, in either order and not at one moment. */
  predicate IsEmpty(write: nat, read: nat)
  {
    write == read
  }

  predicate IsFull(c: Config, write: nat, read: nat)
    requires Usable(c)
  {
    SlotsFit(c);
    Wrap(write + 1, Slots(c)) == read
  }

  /** Both tests are right of indices that belong together. */
  lemma {:induction false} RightAtOnce(c: Config, s: State)
    requires Usable(c) && Indices(c, s)
    ensures IsEmpty(s.mWrite, s.mRead) <==> |Contents(s)| == 0
    ensures IsFull(c, s.mWrite, s.mRead) <==> |Contents(s)| == Slots(c) - 1
  {
    SlotsFit(c);
    WrapApart(|s.took|, |s.pushed|, Slots(c));
    WrapApart(|s.took|, |s.pushed| + 1, Slots(c));
    WrapNext(|s.pushed|, Slots(c));
  }

  /** Between two moments only the producer has stepped, or only the consumer. */
  predicate OnlyOneSteps(run: Run, later: Run, producer: bool)
  {
    later == run || (later.Then? && ByProducer(later.a) == producer && OnlyOneSteps(run, later.run, producer))
  }

  /** The producer leaves the index of the consumer alone, and the other way round. */
  predicate OwnIndexKept(s: State, s': State, producer: bool)
  {
    if producer then s'.mRead == s.mRead && s'.took == s.took && |s.pushed| <= |s'.pushed|
    else s'.mWrite == s.mWrite && s'.pushed == s.pushed && |s.took| <= |s'.took|
  }

  lemma {:induction false} StepKeepsIndex(c: Config, s: State, a: Action)
    requires Usable(c) && Can(c, s, a)
    ensures OwnIndexKept(s, Next(c, s, a), ByProducer(a)) == true
  {
  }

  lemma {:induction false} OwnIndexStays(c: Config, run: Run, later: Run, producer: bool)
    requires Usable(c) && Legal(c, later) && OnlyOneSteps(run, later, producer)
    ensures Legal(c, run) && OwnIndexKept(After(c, run), After(c, later), producer)
  {
    if later == run {
    } else {
      OwnIndexStays(c, run, later.run, producer);
      var t, t' := After(c, later.run), After(c, later);
      assert OwnIndexKept(t, t', producer) by {
        StepKeepsIndex(c, t, later.a);
      }
    }
  }

  /**
   A side asks while the other goes on between the two loads. Whichever load comes first, the answer is right at
   the moment the index of the other side was loaded: m_write if the consumer asks, m_read if the producer does.
   At one moment (`later == run`) it is right at that moment.
   */
  lemma {:induction false} EmptyAndFull(c: Config, run: Run, later: Run, producer: bool)
    requires Usable(c) && Legal(c, later) && OnlyOneSteps(run, later, producer)
    ensures var s, s' := After(c, run), After(c, later);
            && |s.took| <= |s.pushed| && |s'.took| <= |s'.pushed|
            && var writeFirst, readFirst := if producer then |Contents(s)| else |Contents(s')|,
                                            if producer then |Contents(s')| else |Contents(s)|;
               && (IsEmpty(s.mWrite, s'.mRead) <==> writeFirst == 0)
               && (IsFull(c, s.mWrite, s'.mRead) <==> writeFirst == Slots(c) - 1)
               && (IsEmpty(s'.mWrite, s.mRead) <==> readFirst == 0)
               && (IsFull(c, s'.mWrite, s.mRead) <==> readFirst == Slots(c) - 1)
  {
    OwnIndexStays(c, run, later, producer);
    RunInv(c, run);
    RunInv(c, later);
    RightAtOnce(c, After(c, run));
    RightAtOnce(c, After(c, later));
  }

  /** A queue that is not empty stays so until the consumer acts, one that is not full until the producer does. */
  lemma {:induction false} AnswerLasts(c: Config, run: Run, later: Run, producer: bool)
    requires Usable(c) && Legal(c, later) && OnlyOneSteps(run, later, producer)
    ensures var s, s' := After(c, run), After(c, later);
            && |s.took| <= |s.pushed| && |s'.took| <= |s'.pushed|
            && (if producer then |Contents(s)| <= |Contents(s')| else |Contents(s')| <= |Contents(s)|)
  {
    OwnIndexStays(c, run, later, producer);
    RunInv(c, run);
    RunInv(c, later);
  }

  // ---------- queue_discard ----------

  predicate OfDiscard(a: Action)
  {
    a.DiscardLoad? || a.DiscardCheck? || a.DiscardStore? || a.DiscardEnd?
  }

  /** From `start` to `later` the consumer is in a call of queue_discard for `n` blocks, or has just ended it. */
  predicate InCall(c: Config, start: Run, later: Run, n: nat)
    requires Usable(c)
  {
    later == Then(start, DiscardBegin(n)) ||
    (later.Then? && InCall(c, start, later.run, n) && !After(c, later.run).consumer.Resting? &&
     (ByProducer(later.a) || OfDiscard(later.a)))
  }

  /** What the place in the loop says of the `d` blocks that are gone, when `waiting` were there at the start. */
  predicate Counts(at: Consumer, n: nat, d: int, waiting: int)
  {
    match at
    case Skipping(m) => d + m == n
    case SkipChecking(m, _) => d + m + 1 == n
    case SkipStoring(m, _) => d + m + 1 == n
    case Resting => d <= n && (d < n ==> d >= waiting)
    case _ => false
  }

  lemma {:induction false} ProducerAlone(c: Config, s: State, a: Action)
    requires Usable(c) && Can(c, s, a) && ByProducer(a)
    ensures var s' := Next(c, s, a); s'.consumer == s.consumer && s'.took == s.took && |s.pushed| <= |s'.pushed|
  {
  }

  lemma {:induction false} CountStep(c: Config, s: State, a: Action, n: nat, took: nat, waiting: int)
    requires Usable(c) && Inv(c, s) && Can(c, s, a) && OfDiscard(a)
    requires Counts(s.consumer, n, |s.took| - took, waiting) && took + waiting <= |s.pushed|
    ensures var s' := Next(c, s, a); Counts(s'.consumer, n, |s'.took| - took, waiting) && s'.pushed == s.pushed
  {
    if a.DiscardCheck? {
      DiscardCheckInv(c, s);
    }
  }

  /** `t` is a moment of the call that began at `s`. */
  predicate Tallies(s: State, t: State, n: nat)
  {
    |s.took| <= |s.pushed| <= |t.pushed| && Counts(t.consumer, n, |t.took| - |s.took|, |Contents(s)|)
  }

  lemma {:induction false} TallyStep(c: Config, s: State, t: State, a: Action, n: nat)
    requires Usable(c) && Inv(c, t) == true && Can(c, t, a) && Tallies(s, t, n) && (ByProducer(a) || OfDiscard(a))
    ensures Tallies(s, Next(c, t, a), n) == true
  {
    if ByProducer(a) {
      ProducerAlone(c, t, a);
    } else {
      CountStep(c, t, a, n, |s.took|, |Contents(s)|);
    }
  }

  lemma {:induction false} TallyStart(c: Config, s: State, n: nat)
    requires Usable(c) && Inv(c, s) && Can(c, s, DiscardBegin(n))
    ensures Tallies(s, Next(c, s, DiscardBegin(n)), n) == true
  {
  }

  lemma {:induction false} CallCounts(c: Config, start: Run, later: Run, n: nat)
    requires Usable(c) && Legal(c, later) && InCall(c, start, later, n)
    ensures Legal(c, start) && Tallies(After(c, start), After(c, later), n) == true
  {
    if later == Then(start, DiscardBegin(n)) {
      RunInv(c, start);
      TallyStart(c, After(c, start), n);
    } else {
      CallCounts(c, start, later.run, n);
      RunInv(c, later.run);
      TallyStep(c, After(c, start), After(c, later.run), later.a, n);
    }
  }

  /**
   A call of queue_discard takes as many blocks as it is told, or all that were there and those that came in between
   if there are fewer; with no producer at work exactly the lesser of the two numbers.
   */
  lemma {:induction false} DiscardsExactly(c: Config, start: Run, later: Run, n: nat)
    requires Usable(c) && Legal(c, later) && InCall(c, start, later, n) && After(c, later).consumer.Resting?
    ensures var s, s' := After(c, start), After(c, later);
            && |s.took| <= |s.pushed|
            && var d, waiting := |s'.took| - |s.took|, |Contents(s)|;
               && d <= n && (d < n ==> d >= waiting)
               && (s'.pushed == s.pushed ==> d == if n < waiting then n else waiting)
  {
    CallCounts(c, start, later, n);
    RunInv(c, later);
  }

  /** The contents after a step that finds the state `s`. */
  function Changed(s: State, a: Action): seq<seq<Byte>>
    requires |s.took| <= |s.pushed|
  {
    match a
    case CommitStore => if s.producer.Committing? then Contents(s) + [s.producer.image] else Contents(s)
    case DiscardStore => Contents(s)[if Contents(s) == [] then 0 else 1..]
    case ClearStore =>
      var k := if s.consumer.Clearing? then s.consumer.mark - |s.took| else 0;
      Contents(s)[if 0 <= k <= |Contents(s)| then k else 0..]
    case _ => Contents(s)
  }

  lemma {:induction false} StepChanges(c: Config, s: State, a: Action)
    requires Usable(c) && Inv(c, s) && Can(c, s, a)
    ensures |s.took| <= |s.pushed| && |Next(c, s, a).took| <= |Next(c, s, a).pushed|
    ensures Contents(Next(c, s, a)) == Changed(s, a)
  {
    match a
    case CommitStore => CommitStoreInv(c, s);
    case DiscardStore => DiscardStoreInv(c, s);
    case ClearStore => ClearStoreInv(c, s);
    case _ =>
  }

  /** How each step changes the contents: only a commit adds, only a discard or a clear removes, from the front. */
  lemma {:induction false} ContentsChange(c: Config, run: Run, a: Action)
    requires Usable(c) && Legal(c, Then(run, a))
    ensures var s, s' := After(c, run), After(c, Then(run, a));
            |s.took| <= |s.pushed| && |s'.took| <= |s'.pushed| && Contents(s') == Changed(s, a)
  {
    RunInv(c, run);
    StepChanges(c, After(c, run), a);
  }
}
