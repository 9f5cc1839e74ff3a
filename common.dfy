/** Small shared vocabulary: optional values, opaque entity ids, the string
    queries the Rust code uses (`starts_with`, `contains`, `find`, `rfind`)
    and the "insert in order, last writer wins" map that every `HashMap`
    built by a fold in the source amounts to. */
module Common {

  datatype Option<+T> = None | Some(value: T)

  /** An ECS entity is an opaque id. */
  type Entity = nat

  /** The last element and everything before it, for left folds. */
  function Last<T>(s: seq<T>): T
    requires |s| > 0
  {
    s[|s| - 1]
  }

  function Init<T>(s: seq<T>): seq<T>
    requires |s| > 0
  {
    s[..|s| - 1]
  }

  /** `s.starts_with(p)` */
  predicate StartsWith<T(==)>(s: seq<T>, p: seq<T>) {
    |p| <= |s| && s[..|p|] == p
  }

  /** `s.contains(sub)`: `sub` occurs at some offset of `s`. */
  predicate Contains<T(==)>(s: seq<T>, sub: seq<T>)
    decreases |s|
  {
    StartsWith(s, sub) || (|s| > 0 && Contains(s[1..], sub))
  }

  /** Whatever a suffix contains, the whole sequence contains. */
  lemma {:induction false} ContainsInSuffix<T>(s: seq<T>, k: nat, sub: seq<T>)
    requires k <= |s|
    requires Contains(s[k..], sub)
    ensures Contains(s, sub)
    decreases k
  {
    if k > 0 {
      assert s[1..][k - 1..] == s[k..];
      ContainsInSuffix(s[1..], k - 1, sub);
    }
  }

  /** `s.find(c)`: the first index holding `c`. */
  function IndexOf<T(==)>(s: seq<T>, c: T): (r: Option<nat>)
    ensures r.None? <==> c !in s
    ensures r.Some? ==> r.value < |s| && s[r.value] == c && c !in s[..r.value]
  {
    if |s| == 0 then None
    else if s[0] == c then Some(0)
    else match IndexOf(s[1..], c)
      case None => None
      case Some(i) => assert s[..i + 1] == [s[0]] + s[1..][..i]; Some(i + 1)
  }

  /** `s.rfind(c)`: the last index holding `c`. */
  function LastIndexOf<T(==)>(s: seq<T>, c: T): (r: Option<nat>)
    ensures r.None? <==> c !in s
    ensures r.Some? ==> r.value < |s| && s[r.value] == c && forall k :: r.value < k < |s| ==> s[k] != c
  {
    if |s| == 0 then None
    else if s[|s| - 1] == c then Some(|s| - 1)
    else match LastIndexOf(s[..|s| - 1], c)
      case None => assert s == s[..|s| - 1] + [s[|s| - 1]]; None
      case Some(i) => Some(i)
  }

  /** The map a sequence of `insert(k, v)` calls leaves behind: a key is
      present iff some pair carries it, and it maps to the value of the
      LAST pair that carries it. */
  function LastWins<K(==,!new), V>(ps: seq<(K, V)>): (m: map<K, V>)
    ensures forall k :: k in m <==> exists i :: 0 <= i < |ps| && ps[i].0 == k
    ensures forall k :: k in m ==> exists i :: 0 <= i < |ps| && ps[i].0 == k && m[k] == ps[i].1 && LastWith(ps, i)
  {
    if ps == [] then map[]
    else
      var m := LastWins(ps[..|ps| - 1]);
      var last := ps[|ps| - 1];
      LastWinsInsert(ps, m);
      m[last.0 := last.1]
  }

  /** Inserting the final pair into the map of the other pairs keeps both
      halves of the `LastWins` contract. */
  lemma LastWinsInsert<K(!new), V>(ps: seq<(K, V)>, m: map<K, V>)
    requires ps != []
    requires forall k :: k in m <==> exists i :: 0 <= i < |ps| - 1 && ps[i].0 == k
    requires forall k :: k in m ==> exists i :: 0 <= i < |ps| - 1 && ps[i].0 == k && m[k] == ps[i].1 && LastWith(ps[..|ps| - 1], i)
    ensures var r := m[ps[|ps| - 1].0 := ps[|ps| - 1].1];
      (forall k :: k in r <==> exists i :: 0 <= i < |ps| && ps[i].0 == k)
      && (forall k :: k in r ==> exists i :: 0 <= i < |ps| && ps[i].0 == k && r[k] == ps[i].1 && LastWith(ps, i))
  {
    var last := ps[|ps| - 1];
    var r := m[last.0 := last.1];
    forall k | k in r
      ensures exists i :: 0 <= i < |ps| && ps[i].0 == k && r[k] == ps[i].1 && LastWith(ps, i)
    {
      if k == last.0 {
        assert LastWith(ps, |ps| - 1);
      } else {
        var i :| 0 <= i < |ps| - 1 && ps[i].0 == k && m[k] == ps[i].1 && LastWith(ps[..|ps| - 1], i);
        assert forall j :: i < j < |ps| - 1 ==> ps[..|ps| - 1][j] == ps[j];
        assert LastWith(ps, i);
      }
    }
  }

  /** No later pair of `ps` carries the key of `ps[i]`. */
  predicate LastWith<K(==), V>(ps: seq<(K, V)>, i: nat)
    requires i < |ps|
  {
    forall j :: i < j < |ps| ==> ps[j].0 != ps[i].0
  }

  /** One more insert updates one key. */
  lemma LastWinsSnoc<K(!new), V>(ps: seq<(K, V)>, x: (K, V))
    ensures LastWins(ps + [x]) == LastWins(ps)[x.0 := x.1]
  {
    assert (ps + [x])[..|ps|] == ps;
  }

  /** A key carried by exactly one pair maps to that pair's value. */
  lemma LastWinsUnique<K(!new), V>(ps: seq<(K, V)>, i: nat)
    requires i < |ps|
    requires forall j :: 0 <= j < |ps| && j != i ==> ps[j].0 != ps[i].0
    ensures ps[i].0 in LastWins(ps) && LastWins(ps)[ps[i].0] == ps[i].1
  {
  }
}
