/** What a bounded collection holds when it always drops the greatest: the smallest of all that was offered. */
module Selections {

  /** kept + dropped is offered, dropped lies above kept, and only a full collection drops. */
  ghost predicate KeepsSmallest<T>(key: T -> int, kept: multiset<T>, dropped: multiset<T>, offered: multiset<T>,
                                   capacity: nat) {
    && kept + dropped == offered
    && (forall x, y :: x in kept && y in dropped ==> key(x) <= key(y))
    && |kept| == if |offered| < capacity then |offered| else capacity
  }

  /** A greatest element makes room for a value that is no greater. */
  lemma {:induction false} DropGreatest<T>(key: T -> int, kept: multiset<T>, dropped: multiset<T>, offered: multiset<T>,
                                           capacity: nat, kept': multiset<T>, max: T, value: T)
    requires KeepsSmallest(key, kept, dropped, offered, capacity) && |kept| == capacity
    requires kept == kept' + multiset{max} && (forall x :: x in kept ==> key(x) <= key(max))
    requires key(value) <= key(max)
    ensures KeepsSmallest(key, kept' + multiset{value}, dropped + multiset{max}, offered + multiset{value}, capacity)
  {
    assert kept' + multiset{value} + (dropped + multiset{max}) == kept + dropped + multiset{value};
    assert |offered| == |kept| + |dropped|;
  }

  /** A value no smaller than anything kept is dropped at once. */
  lemma {:induction false} DropOffered<T>(key: T -> int, kept: multiset<T>, dropped: multiset<T>, offered: multiset<T>,
                                          capacity: nat, value: T)
    requires KeepsSmallest(key, kept, dropped, offered, capacity) && |kept| == capacity
    requires forall x :: x in kept ==> key(x) <= key(value)
    ensures KeepsSmallest(key, kept, dropped + multiset{value}, offered + multiset{value}, capacity)
  {
    assert |offered| == |kept| + |dropped|;
  }

  /** While there is room, everything is kept. */
  lemma {:induction false} KeepOffered<T>(key: T -> int, kept: multiset<T>, dropped: multiset<T>, offered: multiset<T>,
                                          capacity: nat, value: T)
    requires KeepsSmallest(key, kept, dropped, offered, capacity) && |kept| < capacity
    ensures KeepsSmallest(key, kept + multiset{value}, dropped, offered + multiset{value}, capacity)
  {
    assert |offered| == |kept| + |dropped|;
    assert dropped == multiset{};
  }

  lemma RestartHistory<T>(key: T -> int, kept: multiset<T>, capacity: nat)
    requires |kept| <= capacity
    ensures KeepsSmallest(key, kept, multiset{}, kept, capacity)
  {
  }
}
