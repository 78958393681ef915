/** The plain map from addresses to lines that every cache array is compared with.
    Address 0 marks an empty line. */
module AddressMap {

  /** m sends each address to the line that holds it, and holds no other address. */
  ghost predicate Inverse(m: map<nat, nat>, addrs: seq<nat>) {
    && (forall a | a in m :: a != 0 && m[a] < |addrs| && addrs[m[a]] == a)
    && (forall i | 0 <= i < |addrs| :: addrs[i] != 0 ==> addrs[i] in m && m[addrs[i]] == i)
  }

  /** m with line i emptied and then given address a. */
  ghost function Rebound(m: map<nat, nat>, a: nat, i: nat): map<nat, nat> {
    (map b | b in m && m[b] != i :: m[b])[a := i]
  }

  lemma RebindKeepsInverse(m: map<nat, nat>, addrs: seq<nat>, a: nat, i: nat)
    requires Inverse(m, addrs) && i < |addrs| && a != 0 && (a in m ==> m[a] == i)
    ensures Inverse(Rebound(m, a, i), addrs[i := a])
    ensures Rebound(m, a, i) == (m - {addrs[i]})[a := i]
  {
    assert (m - {addrs[i]}) == map b | b in m && m[b] != i :: m[b];
  }
}
