/** One row put into a sequence or taken out of it. */
module Lists {

  function InsertAt<T>(s: seq<T>, pos: nat, x: T): (r: seq<T>)
    requires pos <= |s|
    ensures |r| == |s| + 1
  {
    s[..pos] + [x] + s[pos..]
  }

  function RemoveAt<T>(s: seq<T>, pos: nat): (r: seq<T>)
    requires pos < |s|
    ensures |r| == |s| - 1
  {
    s[..pos] + s[pos + 1..]
  }

  lemma InsertedElement<T>(s: seq<T>, pos: nat, x: T, i: nat)
    requires pos <= |s| && i <= |s|
    ensures InsertAt(s, pos, x)[i] == if i < pos then s[i] else if i == pos then x else s[i - 1]
  {
  }

  lemma RemovedElement<T>(s: seq<T>, pos: nat, i: nat)
    requires pos < |s| && i + 1 < |s|
    ensures RemoveAt(s, pos)[i] == s[if i < pos then i else i + 1]
  {
  }

  lemma RemoveInserted<T>(s: seq<T>, pos: nat, x: T)
    requires pos <= |s|
    ensures RemoveAt(InsertAt(s, pos, x), pos) == s
  {
  }

  lemma InsertRemoved<T>(s: seq<T>, pos: nat)
    requires pos < |s|
    ensures InsertAt(RemoveAt(s, pos), pos, s[pos]) == s
  {
  }

  /** The first place where `x` stands in `s`. */
  function IndexOf<T(==)>(s: seq<T>, x: T): (r: nat)
    requires x in s
    ensures r < |s| && s[r] == x && x !in s[..r]
  {
    if s[0] == x then 0 else
      var r := IndexOf(s[1..], x);
      assert s[..r + 1] == [s[0]] + s[1..][..r];
      r + 1
  }

  ghost predicate Distinct<T>(s: seq<T>) {
    forall i, j :: 0 <= i < j < |s| ==> s[i] != s[j]
  }
}
