/** Sequence facts that the iterator pipelines of the key sets rely on. */
module Seqs {

  /** `iter().map(f).collect()`: apply `f` to every element, in order. */
  function MapSeq<A, B>(f: A -> B, s: seq<A>): (r: seq<B>)
    ensures |r| == |s|
    ensures forall i :: 0 <= i < |s| ==> r[i] == f(s[i])
  {
    if s == [] then [] else [f(s[0])] + MapSeq(f, s[1..])
  }

  /** Mapping commutes with concatenation: the order of the input is kept. */
  lemma MapSeqAppend<A, B>(f: A -> B, s: seq<A>, t: seq<A>)
    ensures MapSeq(f, s + t) == MapSeq(f, s) + MapSeq(f, t)
  {
  }

  /** Output position `k` is decided by input position `k` alone. */
  lemma MapSeqUpdate<A, B>(f: A -> B, s: seq<A>, k: nat, x: A)
    requires k < |s|
    ensures MapSeq(f, s[k := x]) == MapSeq(f, s)[k := f(x)]
  {
  }

  /** Two distinct positions of `s` hold the same value. */
  ghost predicate HasRepeat<T>(s: seq<T>) {
    exists i, j :: 0 <= i < j < |s| && s[i] == s[j]
  }

  /** The values of `s` collected into a set (`collect::<HashSet<_>>()`). */
  function Elements<T(==)>(s: seq<T>): set<T> {
    set x | x in s
  }

  /**
   * Collecting into a set never gains elements, and loses one exactly when
   * some value occurs twice.
   */
  lemma {:induction false} ElementsCard<T>(s: seq<T>)
    ensures |Elements(s)| <= |s|
    ensures |Elements(s)| == |s| <==> !HasRepeat(s)
  {
    if s != [] {
      var t := s[1..];
      ElementsCard(t);
      assert s == [s[0]] + t;
      assert Elements(s) == {s[0]} + Elements(t);
      if s[0] in t {
        var j :| 0 <= j < |t| && t[j] == s[0];
        assert s[0] == s[j + 1];
        assert Elements(s) == Elements(t);
      } else {
        assert s[0] !in Elements(t);
        assert |Elements(s)| == |Elements(t)| + 1;
        if HasRepeat(s) {
          var i, j :| 0 <= i < j < |s| && s[i] == s[j];
          assert s[j] == t[j - 1];
          assert i != 0;
          assert t[i - 1] == t[j - 1];
          assert HasRepeat(t);
        }
        if HasRepeat(t) {
          var i, j :| 0 <= i < j < |t| && t[i] == t[j];
          assert s[i + 1] == s[j + 1];
        }
      }
    }
  }
}
