/**
 * What reads of one target cost while nothing fails: the setup is paid once.
 */
module ReadCosts {
  import opened Prelude
  import opened Adapter
  import opened ElmSession

  /** The next `n` exchanges are acknowledged. */
  predicate FaultFree(w: Wire, n: nat) {
    n <= |w.fates| && forall i | 0 <= i < n :: w.fates[i].outcome == Text(Accepted)
  }

  function Repeat(op: Op, n: nat): (ops: seq<Op>)
    ensures |ops| == n && forall i | 0 <= i < n :: ops[i] == op
  {
    seq(n, _ => op)
  }

  /** `n` reads of one target cost two setup commands at most once and then one
      command each, whatever ran before. */
  lemma {:induction false} RepeatedReadsCost(highest: nat, s: State, key: Key, n: nat)
    requires FaultFree(s.wire, n + if s.configured == Some(key) then 0 else 2)
    ensures var s' := RunOps(highest, s, Repeat(ReadTargeted(key), n));
            |s'.wire.log| == |s.wire.log| + n + if s.configured == Some(key) || n == 0 then 0 else 2
    decreases n
  {
    if n > 0 {
      var (s1, ok) := Perform(highest, s, ReadTargeted(key));
      ReadCost(s, key);
      assert Repeat(ReadTargeted(key), n)[1..] == Repeat(ReadTargeted(key), n - 1);
      RepeatedReadsCost(highest, s1, key, n - 1);
    }
  }

  lemma ReadCost(s: State, key: Key)
    requires FaultFree(s.wire, if s.configured == Some(key) then 1 else 3)
    ensures var setup := if s.configured == Some(key) then 0 else 2;
            var (s', ok) := CachedRead(s, key, true);
            ok && s'.configured == Some(key) && |s'.wire.log| == |s.wire.log| + setup + 1
            && s'.wire.fates == s.wire.fates[setup + 1..]
  {
    if s.configured != Some(key) {
      var (w1, o1) := Exchanged(s.wire, SetHeader(key.header));
      var (w2, o2) := Exchanged(w1, SetFilter(key.filter));
      assert ConfigureCommands(key)[1..] == [SetFilter(key.filter)];
      assert [SetFilter(key.filter)][1..] == [];
      assert SentAll(w1, [SetFilter(key.filter)]) == (w2, true);
    }
  }
}
