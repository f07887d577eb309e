/** Identifier utilities: duplicate detection and disjointness of id arrays. */
module Duplicator {
  import opened Types

  /** An element of an id array as the backend receives it: an ObjectId, or a string that
      should encode one (request bodies carry strings; stored documents carry ObjectIds). */
  datatype IdValue = ObjectId(id: Id) | Text(text: string)

  /** `value.toString()`: an ObjectId prints its canonical text, a string prints itself. */
  function ToString(v: IdValue): string {
    match v
    case ObjectId(id) => id
    case Text(s) => s
  }

  function Texts(xs: seq<string>): (r: seq<IdValue>)
    ensures |r| == |xs|
    ensures forall i :: 0 <= i < |xs| ==> r[i] == Text(xs[i])
  {
    seq(|xs|, i requires 0 <= i < |xs| => Text(xs[i]))
  }

  function ObjectIds(xs: seq<Id>): (r: seq<IdValue>)
    ensures |r| == |xs|
    ensures forall i :: 0 <= i < |xs| ==> r[i] == ObjectId(xs[i])
  {
    seq(|xs|, i requires 0 <= i < |xs| => ObjectId(xs[i]))
  }

  /* ---------- hasDuplicates ---------- */

  /** Two positions of `a` hold values with the same string form. */
  predicate HasRepeat(a: seq<IdValue>) {
    exists i, j :: 0 <= i < j < |a| && ToString(a[i]) == ToString(a[j])
  }

  /** `hasDuplicates`: scans the array once, remembering the string form of every element seen,
      and stops at the first repeat. */
  method HasDuplicates(ids: seq<IdValue>) returns (r: bool)
    ensures r == HasRepeat(ids)
  {
    var seen: set<string> := {};
    var k := 0;
    while k < |ids|
      invariant 0 <= k <= |ids|
      invariant seen == set i | 0 <= i < k :: ToString(ids[i])
      invariant forall i, j :: 0 <= i < j < k ==> ToString(ids[i]) != ToString(ids[j])
    {
      var idStr := ToString(ids[k]);
      if idStr in seen {
        var i :| 0 <= i < k && ToString(ids[i]) == idStr;
        assert ToString(ids[i]) == ToString(ids[k]);
        return true;
      }
      seen := seen + {idStr};
      k := k + 1;
    }
    return false;
  }

  /** On strings, a repeat is a repeated string. */
  lemma HasRepeatOfTexts(xs: seq<string>)
    ensures HasRepeat(Texts(xs)) <==> !NoDup(xs)
  {
    var t := Texts(xs);
    if !NoDup(xs) {
      var i, j :| 0 <= i < j < |xs| && xs[i] == xs[j];
      assert ToString(t[i]) == ToString(t[j]);
    }
  }

  /** An ObjectId and its own string encoding count as the same value. */
  lemma IdAndItsTextRepeat(id: Id, rest: seq<IdValue>)
    ensures HasRepeat([ObjectId(id), Text(id)] + rest)
  {
    var a := [ObjectId(id), Text(id)] + rest;
    assert ToString(a[0]) == ToString(a[1]);
  }

  /** A repeat anywhere in a part is a repeat of the whole. */
  lemma {:induction false} RepeatInPrefix(a: seq<IdValue>, b: seq<IdValue>)
    requires HasRepeat(a)
    ensures HasRepeat(a + b) && HasRepeat(b + a)
  {
    var i, j :| 0 <= i < j < |a| && ToString(a[i]) == ToString(a[j]);
    var ab, ba := a + b, b + a;
    assert ToString(ab[i]) == ToString(ab[j]);
    assert ToString(ba[|b| + i]) == ToString(ba[|b| + j]);
  }

  /* ---------- areObjectIdArraysDisjoint ---------- */

  /** `id instanceof ObjectId ? id : new ObjectId(id)`: `None` when the constructor throws
      because the string is not an id text. */
  function AsObjectId(v: IdValue): (r: Option<Id>)
    ensures v.ObjectId? ==> r == Some(v.id)
    ensures v.Text? ==> (r.Some? <==> IsIdText(v.text))
  {
    match v
    case ObjectId(id) => Some(id)
    case Text(s) => if IsIdText(s) then Some(ToId(s)) else None
  }

  /** `arr2.some(id2 => x.equals(asObjectId(id2)))`, elements converted left to right:
      `Err(Internal)` when a conversion throws before a match is found. */
  function SomeEquals(x: Id, b: seq<IdValue>): (r: Result<bool>)
    ensures r.Err? ==> r.error == Internal
    ensures r == Ok(true) ==> exists i :: 0 <= i < |b| && AsObjectId(b[i]) == Some(x)
    ensures r.Err? ==> exists i :: 0 <= i < |b| && AsObjectId(b[i]).None?
    decreases |b|
  {
    if b == [] then Ok(false)
    else match AsObjectId(b[0])
      case None => Err(Internal)
      case Some(y) => if x == y then Ok(true) else SomeEquals(x, b[1..])
  }

  /** The loop over `arr1` of `areObjectIdArraysDisjoint`: each element is converted first,
      then `arr2` is scanned for it; the first match answers false. */
  function DisjointFrom(a: seq<IdValue>, b: seq<IdValue>): (r: Result<bool>)
    ensures a == [] ==> r == Ok(true)
    ensures r.Err? ==> r.error == Internal
    ensures r.Err? ==> exists v :: (v in a || v in b) && AsObjectId(v).None?
    decreases |a|
  {
    if a == [] then Ok(true)
    else match AsObjectId(a[0])
      case None => Err(Internal)
      case Some(x) =>
        match SomeEquals(x, b)
        case Err(e) => Err(e)
        case Ok(found) => if found then Ok(false) else DisjointFrom(a[1..], b)
  }

  /** `areObjectIdArraysDisjoint(arr1, arr2)`; an absent argument stands for a value that is not
      an array. `Err(Internal)` is the case where the ObjectId constructor throws, which every
      caller re-wraps as an internal error. */
  function Disjointness(arr1: Option<seq<IdValue>>, arr2: Option<seq<IdValue>>): (r: Result<bool>)
    ensures arr1.None? || arr2.None? ==> r == Ok(false)
    ensures arr1.Some? && arr1.value == [] && arr2.Some? ==> r == Ok(true)
    ensures r.Err? ==> r.error == Internal
  {
    if arr1.None? || arr2.None? then Ok(false) else DisjointFrom(arr1.value, arr2.value)
  }

  /** `areObjectIdArraysDisjoint`: a loop over `arr1` with an inner scan of `arr2` and an early
      `return false` on the first common id. */
  method AreObjectIdArraysDisjoint(arr1: Option<seq<IdValue>>, arr2: Option<seq<IdValue>>)
    returns (r: Result<bool>)
    ensures r == Disjointness(arr1, arr2)
  {
    if arr1.None? || arr2.None? {
      return Ok(false);
    }
    var a, b := arr1.value, arr2.value;
    var i := 0;
    while i < |a|
      invariant 0 <= i <= |a|
      invariant DisjointFrom(a, b) == DisjointFrom(a[i..], b)
    {
      assert a[i..][1..] == a[i + 1..];
      var x := AsObjectId(a[i]);
      if x.None? {
        return Err(Internal);
      }
      var j := 0;
      while j < |b|
        invariant 0 <= j <= |b|
        invariant SomeEquals(x.value, b) == SomeEquals(x.value, b[j..])
      {
        assert b[j..][1..] == b[j + 1..];
        var y := AsObjectId(b[j]);
        if y.None? {
          return Err(Internal);
        }
        if x.value == y.value {
          return Ok(false);
        }
        j := j + 1;
      }
      i := i + 1;
    }
    return Ok(true);
  }

  /* ---------- what the disjointness check means ---------- */

  predicate AllConvertible(a: seq<IdValue>) {
    forall i :: 0 <= i < |a| ==> AsObjectId(a[i]).Some?
  }

  /** Some element of `a` and some element of `b` denote the same ObjectId. */
  predicate Shares(a: seq<IdValue>, b: seq<IdValue>) {
    exists i, j :: 0 <= i < |a| && 0 <= j < |b| && AsObjectId(a[i]).Some? && AsObjectId(a[i]) == AsObjectId(b[j])
  }

  lemma {:induction false} SomeEqualsMeaning(x: Id, b: seq<IdValue>)
    requires AllConvertible(b)
    ensures SomeEquals(x, b) == Ok(exists j :: 0 <= j < |b| && AsObjectId(b[j]) == Some(x))
    decreases |b|
  {
    if b != [] {
      SomeEqualsMeaning(x, b[1..]);
      if AsObjectId(b[0]) != Some(x) {
        assert forall j :: 1 <= j < |b| ==> b[j] == b[1..][j - 1];
      }
    }
  }

  /** On arrays whose every element converts, the check answers exactly "no element of `a`
      equals an element of `b`". */
  lemma {:induction false} DisjointFromMeaning(a: seq<IdValue>, b: seq<IdValue>)
    requires AllConvertible(a) && AllConvertible(b)
    ensures DisjointFrom(a, b) == Ok(!Shares(a, b))
    decreases |a|
  {
    if a != [] {
      var x := AsObjectId(a[0]).value;
      SomeEqualsMeaning(x, b);
      DisjointFromMeaning(a[1..], b);
      if Shares(a[1..], b) {
        var i, j :| 0 <= i < |a[1..]| && 0 <= j < |b| && AsObjectId(a[1..][i]).Some? && AsObjectId(a[1..][i]) == AsObjectId(b[j]);
        assert AsObjectId(a[i + 1]) == AsObjectId(b[j]);
      }
      if Shares(a, b) && SomeEquals(x, b) == Ok(false) {
        var i, j :| 0 <= i < |a| && 0 <= j < |b| && AsObjectId(a[i]).Some? && AsObjectId(a[i]) == AsObjectId(b[j]);
        assert i != 0;
        assert AsObjectId(a[1..][i - 1]) == AsObjectId(b[j]);
      }
    }
  }

  /** The check answers true exactly when every element of `a` converts, every element of `b`
      converts (when `a` is not empty, since then `b` is scanned in full) and no element is
      shared. In particular an empty `a` gives true whatever `b` holds. */
  lemma {:induction false} DisjointFromTrue(a: seq<IdValue>, b: seq<IdValue>)
    ensures DisjointFrom(a, b) == Ok(true) <==>
      AllConvertible(a) && (a != [] ==> AllConvertible(b)) && !Shares(a, b)
    decreases |a|
  {
    if a != [] {
      DisjointFromTrue(a[1..], b);
      var c := AsObjectId(a[0]);
      if DisjointFrom(a, b) == Ok(true) {
        assert c.Some?;
        assert SomeEquals(c.value, b) == Ok(false);
        NoMatchConverts(c.value, b);
        SomeEqualsMeaning(c.value, b);
        assert AllConvertible(a) by {
          forall i | 0 <= i < |a| ensures AsObjectId(a[i]).Some? {
            if i > 0 { assert a[i] == a[1..][i - 1]; }
          }
        }
        DisjointFromMeaning(a, b);
      }
      if AllConvertible(a) && AllConvertible(b) && !Shares(a, b) {
        DisjointFromMeaning(a, b);
      }
    }
  }

  /** A scan of `b` that finds no match has converted every element of `b`. */
  lemma {:induction false} NoMatchConverts(x: Id, b: seq<IdValue>)
    requires SomeEquals(x, b) == Ok(false)
    ensures AllConvertible(b)
    decreases |b|
  {
    if b != [] {
      NoMatchConverts(x, b[1..]);
      forall j | 0 <= j < |b| ensures AsObjectId(b[j]).Some? {
        if j > 0 { assert b[j] == b[1..][j - 1]; }
      }
    }
  }

  /** Either argument not an array: false, never "trivially disjoint". */
  lemma NotAnArrayIsNotDisjoint(arr1: Option<seq<IdValue>>, arr2: Option<seq<IdValue>>)
    requires arr1.None? || arr2.None?
    ensures Disjointness(arr1, arr2) == Ok(false)
  {
  }

  /** On arrays of convertible values the answer does not depend on the order of the arguments. */
  lemma DisjointnessSymmetric(a: seq<IdValue>, b: seq<IdValue>)
    requires AllConvertible(a) && AllConvertible(b)
    ensures Disjointness(Some(a), Some(b)) == Disjointness(Some(b), Some(a))
  {
    DisjointFromMeaning(a, b);
    DisjointFromMeaning(b, a);
    if Shares(a, b) {
      var i, j :| 0 <= i < |a| && 0 <= j < |b| && AsObjectId(a[i]).Some? && AsObjectId(a[i]) == AsObjectId(b[j]);
      assert AsObjectId(b[j]).Some? && AsObjectId(b[j]) == AsObjectId(a[i]);
    }
    if Shares(b, a) {
      var j, i :| 0 <= j < |b| && 0 <= i < |a| && AsObjectId(b[j]).Some? && AsObjectId(b[j]) == AsObjectId(a[i]);
      assert AsObjectId(a[i]).Some? && AsObjectId(a[i]) == AsObjectId(b[j]);
    }
  }

  /** With a string that is not an id text, the order of the arguments matters: the text is
      converted (and throws) only when it sits on the left, or on the right of a non-empty left. */
  lemma DisjointnessAsymmetricOnBadText()
    ensures Disjointness(Some([Text("x")]), Some([])) == Err(Internal)
    ensures Disjointness(Some([]), Some([Text("x")])) == Ok(true)
  {
    assert !IsIdText("x");
  }

  /** A mixed pair, an ObjectId on one side and its own text on the other, is not disjoint. */
  lemma IdAndItsTextNotDisjoint(id: Id)
    ensures Disjointness(Some([ObjectId(id)]), Some([Text(id)])) == Ok(false)
    ensures Disjointness(Some([Text(id)]), Some([ObjectId(id)])) == Ok(false)
  {
    ToIdOfCanonical(id);
  }

  /** The form in which the services call the check: request texts against a stored list of
      ObjectIds. It answers true exactly when every text is an id text and none of them denotes
      an id already in the stored list. */
  lemma TextsAgainstIds(xs: seq<string>, ys: seq<Id>)
    ensures Disjointness(Some(Texts(xs)), Some(ObjectIds(ys))) == Ok(true) <==>
      AllIdTexts(xs) && forall i :: 0 <= i < |xs| ==> ToId(xs[i]) !in ys
  {
    var a, b := Texts(xs), ObjectIds(ys);
    DisjointFromTrue(a, b);
    assert AllConvertible(b);
    assert AllConvertible(a) <==> AllIdTexts(xs) by {
      assert forall i :: 0 <= i < |xs| ==> (AsObjectId(a[i]).Some? <==> IsIdText(xs[i]));
    }
    if AllIdTexts(xs) {
      if Shares(a, b) {
        var i, j :| 0 <= i < |a| && 0 <= j < |b| && AsObjectId(a[i]).Some? && AsObjectId(a[i]) == AsObjectId(b[j]);
        assert ToId(xs[i]) == ys[j];
      }
      if !Shares(a, b) {
        forall i | 0 <= i < |xs| ensures ToId(xs[i]) !in ys {
          assert forall j :: 0 <= j < |ys| ==> AsObjectId(a[i]) != AsObjectId(b[j]);
        }
      }
    }
  }
}
