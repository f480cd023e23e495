/**
 Lazily promoted values (include/evm_runtime/value_promoter.hpp).

 A promoter keeps a cached value and at most one pending value, stamped with the time it was
 set; the pending value takes effect in the first EVM block after that time, and is moved into
 the cache whenever somebody happens to look.  What it means is a plain function of the block
 number, `ValueAt`: a block starts with the value of the block before it, changed by the last
 update made there.  The theorem says that no run can tell the two apart.
 */
module ValuePromoter {
  import opened Words
  import opened BlockMapping

  datatype Pending<T> = Pending(value: T, time: Time)

  datatype Promoter<T> = Promoter(cached: T, pending: Option<Pending<T>>)

  predicate IsActive<T>(genesis: nat, p: Pending<T>, now: Time) {
    Block(genesis, now) > Block(genesis, p.time)
  }

  function GetValue<T>(genesis: nat, s: Promoter<T>, now: Time): T {
    if s.pending.Some? && IsActive(genesis, s.pending.value, now) then s.pending.value.value else s.cached
  }

  function Promote<T>(genesis: nat, s: Promoter<T>, now: Time): Promoter<T> {
    if s.pending.Some? && IsActive(genesis, s.pending.value, now)
    then Promoter(s.pending.value.value, None)
    else s
  }

  function Update<T>(genesis: nat, s: Promoter<T>, visitor: T -> T, now: Time): Promoter<T> {
    Promote(genesis, s, now).(pending := Some(Pending(visitor(GetValue(genesis, s, now)), now)))
  }

  /** The promoter as stored in the configuration singleton, changed in place. */
  class StoredPromoter<T> {
    var cached: T
    var pending: Option<Pending<T>>

    function State(): Promoter<T>
      reads this
    {
      Promoter(cached, pending)
    }

    constructor (s: Promoter<T>)
      ensures State() == s
    {
      cached, pending := s.cached, s.pending;
    }

    method GetValueAndMaybePromote(genesis: nat, now: Time) returns (current: T, promoted: bool)
      modifies this
      ensures current == GetValue(genesis, old(State()), now)
      ensures State() == Promote(genesis, old(State()), now)
      ensures promoted <==> State() != old(State())
      ensures current == cached
    {
      current, promoted := cached, false;
      if pending.Some? && IsActive(genesis, pending.value, now) {
        current := pending.value.value;
        PromotePending();
        promoted := true;
      }
    }

    method PromotePending()
      requires pending.Some?
      modifies this
      ensures State() == Promoter(old(pending).value.value, None)
    {
      cached := pending.value.value;
      pending := None;
    }

    method ApplyUpdate(genesis: nat, visitor: T -> T, now: Time)
      modifies this
      ensures State() == Update(genesis, old(State()), visitor, now)
    {
      var current, _ := GetValueAndMaybePromote(genesis, now);
      pending := Some(Pending(visitor(current), now));
    }
  }

  // ----- What a promoter means -----

  /** An update, seen from outside: the block it was made in and what it did to the value. */
  datatype Change<!T> = Change(block: nat, apply: T -> T)

  function LastChangeIn<T>(changes: seq<Change<T>>, b: nat): Option<T -> T> {
    if changes == [] then None
    else if changes[|changes| - 1].block == b then Some(changes[|changes| - 1].apply)
    else LastChangeIn(changes[..|changes| - 1], b)
  }

  /** The value in force throughout block b. */
  function ValueAt<T>(initial: T, changes: seq<Change<T>>, b: nat): T {
    if b == 0 then initial
    else
      var before := ValueAt(initial, changes, b - 1);
      match LastChangeIn(changes, b - 1)
      case None => before
      case Some(f) => f(before)
  }

  /** The operations of a run, each at some time. */
  datatype Op<!T> =
    | Get(time: Time)
    | GetAndMaybePromote(time: Time)
    | Set(time: Time, visitor: T -> T)

  function Step<T>(genesis: nat, s: Promoter<T>, op: Op<T>): Promoter<T> {
    match op
    case Get(_) => s
    case GetAndMaybePromote(t) => Promote(genesis, s, t)
    case Set(t, f) => Update(genesis, s, f, t)
  }

  function After<T>(genesis: nat, initial: T, ops: seq<Op<T>>): Promoter<T> {
    if ops == [] then Promoter(initial, None)
    else Step(genesis, After(genesis, initial, ops[..|ops| - 1]), ops[|ops| - 1])
  }

  /** The value operation i of the run finds: returned by a read, handed to a visitor. */
  function Found<T>(genesis: nat, initial: T, ops: seq<Op<T>>, i: nat): T
    requires i < |ops|
  {
    GetValue(genesis, After(genesis, initial, ops[..i]), ops[i].time)
  }

  function Changes<T>(genesis: nat, ops: seq<Op<T>>): seq<Change<T>> {
    if ops == [] then []
    else
      var before, op := Changes(genesis, ops[..|ops| - 1]), ops[|ops| - 1];
      if op.Set? then before + [Change(Block(genesis, op.time), op.visitor)] else before
  }

  ghost predicate InTimeOrder<T>(ops: seq<Op<T>>) {
    forall i, j :: 0 <= i < j < |ops| ==> ops[i].time <= ops[j].time
  }

  ghost predicate UpTo<T>(changes: seq<Change<T>>, b: nat) {
    forall i :: 0 <= i < |changes| ==> changes[i].block <= b
  }

  lemma {:induction false} NoChangeAfter<T>(changes: seq<Change<T>>, c: nat, b: nat)
    requires UpTo(changes, c) && c < b
    ensures LastChangeIn(changes, b) == None
  {
    if changes != [] {
      NoChangeAfter(changes[..|changes| - 1], c, b);
    }
  }

  /** A new change leaves the past alone and decides all blocks after its own. */
  lemma {:induction false} OneMoreChange<T>(initial: T, changes: seq<Change<T>>, x: Change<T>, b: nat)
    requires UpTo(changes, x.block)
    ensures b <= x.block ==> ValueAt(initial, changes + [x], b) == ValueAt(initial, changes, b)
    ensures b > x.block ==> ValueAt(initial, changes + [x], b) == x.apply(ValueAt(initial, changes, x.block))
  {
    if b > 0 {
      OneMoreChange(initial, changes, x, b - 1);
      var more := changes + [x];
      assert more[..|more| - 1] == changes;
      if b - 1 > x.block {
        NoChangeAfter(changes, x.block, b - 1);
      }
    }
  }

  lemma {:induction false} NoChanges<T>(initial: T, b: nat)
    ensures ValueAt(initial, [], b) == initial
  {
    if b > 0 {
      NoChanges(initial, b - 1);
    }
  }

  /** The stored pair stands for the block-indexed function, from block `now` on. */
  ghost predicate Represents<T>(genesis: nat, initial: T, changes: seq<Change<T>>, s: Promoter<T>, now: nat) {
    match s.pending
    case None =>
      && UpTo(changes, now)
      && forall b: nat :: b >= now ==> ValueAt(initial, changes, b) == s.cached
    case Some(p) =>
      var c := Block(genesis, p.time);
      && UpTo(changes, c) && c <= now
      && ValueAt(initial, changes, c) == s.cached
      && forall b: nat :: b > c ==> ValueAt(initial, changes, b) == p.value
  }

  lemma StepRepresents<T>(genesis: nat, initial: T, changes: seq<Change<T>>, s: Promoter<T>, now: nat, op: Op<T>)
    requires Represents(genesis, initial, changes, s, now)
    requires now <= Block(genesis, op.time)
    ensures GetValue(genesis, s, op.time) == ValueAt(initial, changes, Block(genesis, op.time))
    ensures !op.Set? ==> Represents(genesis, initial, changes, Step(genesis, s, op), Block(genesis, op.time))
    ensures op.Set? ==>
              Represents(genesis, initial, changes + [Change(Block(genesis, op.time), op.visitor)],
                         Step(genesis, s, op), Block(genesis, op.time))
  {
    var b := Block(genesis, op.time);
    if op.Set? {
      var x := Change(b, op.visitor);
      forall k: nat
        ensures k <= b ==> ValueAt(initial, changes + [x], k) == ValueAt(initial, changes, k)
        ensures k > b ==> ValueAt(initial, changes + [x], k) == x.apply(ValueAt(initial, changes, b))
      {
        OneMoreChange(initial, changes, x, k);
      }
    }
  }

  /** Any run leaves a promoter that stands for the changes made in it. */
  lemma {:induction false} RunRepresents<T>(genesis: nat, initial: T, ops: seq<Op<T>>, now: Time)
    requires InTimeOrder(ops)
    requires forall i :: 0 <= i < |ops| ==> ops[i].time <= now
    ensures Represents(genesis, initial, Changes(genesis, ops), After(genesis, initial, ops), Block(genesis, now))
    decreases |ops|
  {
    if ops == [] {
      forall b: nat
        ensures ValueAt(initial, [], b) == initial
      {
        NoChanges(initial, b);
      }
    } else {
      var front, op := ops[..|ops| - 1], ops[|ops| - 1];
      RunRepresents(genesis, initial, front, op.time);
      StepRepresents(genesis, initial, Changes(genesis, front), After(genesis, initial, front),
                     Block(genesis, op.time), op);
      BlockMonotonic(genesis, op.time, now);
    }
  }

  /** What happens at or after the time of an operation does not change the value of its block. */
  lemma {:induction false} LaterChanges<T>(genesis: nat, initial: T, ops: seq<Op<T>>, i: nat)
    requires InTimeOrder(ops) && i < |ops|
    ensures ValueAt(initial, Changes(genesis, ops), Block(genesis, ops[i].time))
         == ValueAt(initial, Changes(genesis, ops[..i]), Block(genesis, ops[i].time))
    decreases |ops|
  {
    var front, op := ops[..|ops| - 1], ops[|ops| - 1];
    RunRepresents(genesis, initial, front, op.time);
    BlockMonotonic(genesis, ops[i].time, op.time);
    if op.Set? {
      OneMoreChange(initial, Changes(genesis, front), Change(Block(genesis, op.time), op.visitor),
                    Block(genesis, ops[i].time));
    }
    if i < |front| {
      assert front[..i] == ops[..i];
      LaterChanges(genesis, initial, front, i);
    }
  }

  /**
   Every operation of every run finds the value of its block: the block-indexed function of
   all updates made in the run, before it and after it.
   */
  lemma FoundIsBlockValue<T>(genesis: nat, initial: T, ops: seq<Op<T>>, i: nat)
    requires InTimeOrder(ops) && i < |ops|
    ensures Found(genesis, initial, ops, i) == ValueAt(initial, Changes(genesis, ops), Block(genesis, ops[i].time))
  {
    var front := ops[..i];
    RunRepresents(genesis, initial, front, ops[i].time);
    StepRepresents(genesis, initial, Changes(genesis, front), After(genesis, initial, front),
                   Block(genesis, ops[i].time), ops[i]);
    LaterChanges(genesis, initial, ops, i);
  }

  /** Two operations in one EVM block find the same value, whatever happens between them. */
  lemma OneValuePerBlock<T>(genesis: nat, initial: T, ops: seq<Op<T>>, i: nat, j: nat)
    requires InTimeOrder(ops) && i < |ops| && j < |ops|
    requires Block(genesis, ops[i].time) == Block(genesis, ops[j].time)
    ensures Found(genesis, initial, ops, i) == Found(genesis, initial, ops, j)
  {
    FoundIsBlockValue(genesis, initial, ops, i);
    FoundIsBlockValue(genesis, initial, ops, j);
  }

  ghost predicate SameUpToPromotion<T>(ops: seq<Op<T>>, ops': seq<Op<T>>) {
    && |ops| == |ops'|
    && forall i :: 0 <= i < |ops| ==>
         ops[i] == ops'[i] || (!ops[i].Set? && !ops'[i].Set? && ops[i].time == ops'[i].time)
  }

  lemma {:induction false} SameChanges<T>(genesis: nat, ops: seq<Op<T>>, ops': seq<Op<T>>)
    requires SameUpToPromotion(ops, ops')
    ensures Changes(genesis, ops) == Changes(genesis, ops')
    decreases |ops|
  {
    if ops != [] {
      SameChanges(genesis, ops[..|ops| - 1], ops'[..|ops| - 1]);
    }
  }

  /** Whether and when the pending value is promoted cannot be observed. */
  lemma PromotionIsUnobservable<T>(genesis: nat, initial: T, ops: seq<Op<T>>, ops': seq<Op<T>>, i: nat)
    requires InTimeOrder(ops) && SameUpToPromotion(ops, ops') && i < |ops|
    ensures Found(genesis, initial, ops, i) == Found(genesis, initial, ops', i)
  {
    SameChanges(genesis, ops, ops');
    FoundIsBlockValue(genesis, initial, ops, i);
    FoundIsBlockValue(genesis, initial, ops', i);
  }
}
