/** The retry loops of atomic.h as written, for one thread. What the other threads will still do
    to the word is a finite list of operations, any number of which may take effect between the
    thread's own accesses; that each is one atomic step is Atomic.Linearizable. */
module SharedWord {
  import opened Bits
  import opened Atomic

  const MINE: nat := 0
  const OTHERS: nat := 1

  class Word {
    const ty: WordType
    ghost const initial: nat
    var mem: nat
    var pending: seq<Op>
    ghost var log: seq<Point>   // everything that took effect, in order
    ghost var misses: nat       // swaps of this thread that found another word than expected

    constructor (ty: WordType, mem: nat, pending: seq<Op>)
      ensures Valid() && this.ty == ty && this.mem == mem && this.pending == pending && log == []
      ensures misses == 0
    {
      this.ty, this.mem, this.pending, initial, log, misses := ty, mem, pending, mem, [], 0;
    }

    ghost predicate Valid()
      reads this
    {
      Sequential(ty, initial, log, mem)
    }

    /** Since `before`, only other threads' operations took effect. */
    ghost predicate OnlyOthersSince(before: seq<Point>)
      reads this
    {
      before <= log && forall i :: |before| <= i < |log| ==> log[i].call == OTHERS
    }

    /** Since `before`, exactly one operation of this thread took effect, and it was the last. */
    ghost predicate DoneSince(before: seq<Point>, op: Op, found: nat)
      reads this
    {
      && |before| < |log| && before <= log
      && (forall i :: |before| <= i < |log| - 1 ==> log[i].call == OTHERS)
      && log[|log| - 1].call == MINE && log[|log| - 1].op == op && log[|log| - 1].before == found
    }

    ghost method Record(call: nat, op: Op, found: nat)
      requires Sequential(ty, initial, log, found) && mem == After(ty, op, found)
      modifies this`log
      ensures Valid() && log == old(log) + [Point(call, op, found, |old(log)|)]
    {
      log := log + [Point(call, op, found, |log|)];
      assert log[..|log| - 1] == old(log);
    }

    /** Other threads run for a while. */
    method Interfere()
      requires Valid()
      modifies this`mem, this`pending, this`log
      ensures Valid() && OnlyOthersSince(old(log))
      ensures |pending| + |log| == |old(pending)| + |old(log)| && |old(log)| <= |log|
      ensures |pending| == |old(pending)| ==> mem == old(mem)
    {
      var n :| 0 <= n <= |pending|;
      while n > 0
        invariant 0 <= n <= |pending| && Valid() && OnlyOthersSince(old(log))
        invariant |pending| + |log| == |old(pending)| + |old(log)|
        invariant |pending| == |old(pending)| ==> mem == old(mem)
      {
        var op, found := pending[0], mem;
        mem, pending, n := After(ty, op, mem), pending[1..], n - 1;
        Record(OTHERS, op, found);
      }
    }

    /** `atomic_compare_and_exchange_val_acq` */
    method CompareAndExchangeVal(newval: nat, oldval: nat) returns (found: nat)
      modifies this`mem, this`misses
      ensures found == old(mem) && mem == if found == oldval then newval else old(mem)
      ensures misses == old(misses) + if found == oldval then 0 else 1
      ensures newval < ty.Size() && oldval < ty.Size() ==>
                mem == After(ty, CompareExchange(newval, oldval), old(mem)) &&
                ty.Value(found) == Result(ty, CompareExchange(newval, oldval), old(mem))
    {
      found := mem;
      if found == oldval {
        mem := newval;
      } else {
        misses := misses + 1;
      }
    }

    /** `atomic_compare_and_exchange_bool_acq`: false if the word was changed. */
    method CompareAndExchangeBool(newval: nat, oldval: nat) returns (failed: bool)
      modifies this`mem, this`misses
      ensures failed <==> old(mem) != oldval
      ensures mem == if failed then old(mem) else newval
      ensures misses == old(misses) + if failed then 1 else 0
    {
      var found := CompareAndExchangeVal(newval, oldval);
      failed := found != oldval;
    }

    /** `atomic_exchange_acq`; `oldval` is the word that was replaced. */
    method ExchangeAcq(newvalue: int) returns (oldval: nat)
      requires Valid()
      modifies this
      ensures Valid() && DoneSince(old(log), Exchange(newvalue), oldval) && mem == ty.Wrap(newvalue)
      ensures misses - old(misses) < |log| - |old(log)|
    {
      var value, again := ty.Wrap(newvalue), true;
      oldval := 0;
      while again
        invariant Valid() && misses - old(misses) <= |log| - |old(log)|
        invariant if again then OnlyOthersSince(old(log))
                  else && DoneSince(old(log), Exchange(newvalue), oldval) && mem == ty.Wrap(newvalue)
                       && misses - old(misses) < |log| - |old(log)|
        decreases |pending|, again
      {
        Interfere();
        oldval := mem;
        Interfere();
        again := CompareAndExchangeBool(value, oldval);
        if !again {
          Record(MINE, Exchange(newvalue), oldval);
        }
      }
    }

    /** `atomic_exchange_and_add`; the sum with the word that was found is left. */
    method ExchangeAndAdd(value: int) returns (oldval: nat)
      requires Valid()
      modifies this
      ensures Valid() && DoneSince(old(log), Add(value), oldval) && mem == ty.Wrap(oldval + value)
      ensures misses - old(misses) < |log| - |old(log)|
    {
      var again := true;
      oldval := 0;
      while again
        invariant Valid() && misses - old(misses) <= |log| - |old(log)|
        invariant if again then OnlyOthersSince(old(log))
                  else && DoneSince(old(log), Add(value), oldval) && mem == ty.Wrap(oldval + value)
                       && misses - old(misses) < |log| - |old(log)|
        decreases |pending|, again
      {
        Interfere();
        oldval := mem;
        Interfere();
        again := CompareAndExchangeBool(ty.Wrap(oldval + value), oldval);
        if !again {
          Record(MINE, Add(value), oldval);
        }
      }
    }

    /** A positive word has been taken down by one, any other left. */
    predicate Decremented(oldval: nat)
      reads this
    {
      mem == if ty.Value(oldval) > 0 then ty.Wrap(oldval - 1) else oldval
    }

    /** `atomic_decrement_if_positive` */
    method DecrementIfPositive() returns (oldval: nat)
      requires Valid()
      modifies this
      ensures Valid() && DoneSince(old(log), Op.DecrementIfPositive, oldval) && Decremented(oldval)
      ensures misses - old(misses) < |log| - |old(log)|
    {
      var again := true;
      oldval := 0;
      while again
        invariant Valid() && misses - old(misses) <= |log| - |old(log)|
        invariant if again then OnlyOthersSince(old(log))
                  else && DoneSince(old(log), Op.DecrementIfPositive, oldval) && Decremented(oldval)
                       && misses - old(misses) < |log| - |old(log)|
        decreases |pending|, again
      {
        Interfere();
        oldval := mem;
        if ty.Value(oldval) <= 0 {
          Record(MINE, Op.DecrementIfPositive, oldval);
          break;
        }
        Interfere();
        again := CompareAndExchangeBool(ty.Wrap(oldval - 1), oldval);
        if !again {
          Record(MINE, Op.DecrementIfPositive, oldval);
        }
      }
    }

    /** `atomic_bit_test_set` */
    method BitTestSet(bit: nat) returns (result: nat, ghost found: nat)
      requires Valid()
      modifies this
      ensures Valid() && DoneSince(old(log), Op.BitTestSet(bit), found)
      ensures result == And(found, Mask(ty, bit)) && mem == Or(found, Mask(ty, bit))
      ensures misses - old(misses) < |log| - |old(log)|
    {
      var mask, oldval, again := ty.Wrap(Pow2(bit)), 0, true;
      while again
        invariant Valid() && misses - old(misses) <= |log| - |old(log)|
        invariant if again then OnlyOthersSince(old(log))
                  else && DoneSince(old(log), Op.BitTestSet(bit), oldval) && mem == Or(oldval, mask)
                       && misses - old(misses) < |log| - |old(log)|
        decreases |pending|, again
      {
        Interfere();
        oldval := mem;
        Interfere();
        again := CompareAndExchangeBool(Or(oldval, mask), oldval);
        if !again {
          Record(MINE, Op.BitTestSet(bit), oldval);
        }
      }
      result, found := And(oldval, mask), oldval;
    }
  }
}
