/** Shared vocabulary of the backend: identifiers, errors, documents and the inputs the
    services receive. */
module Types {

  datatype Option<T> = None | Some(value: T)

  /** The failures the core reports. Every custom error of the backend is a `BaseCustomError`
      carrying an HTTP status:
      - `BadRequest`: a `BaseCustomError` raised with status 400 (malformed identifier);
      - `NotFound(status)`: a `NotFoundError`, normally 404, but raised with 400 for
        "No value changes!";
      - `Duplicate`: a `DuplicateError` (409);
      - `Internal`: an `ApiError` (500), which is also what every unexpected exception
        (cast error, driver error, type error) is re-wrapped into. */
  datatype Error = BadRequest | NotFound(status: NotFoundStatus) | Duplicate | Internal

  const BAD_REQUEST: nat := 400
  const NOT_FOUND: nat := 404
  const CONFLICT: nat := 409
  const INTERNAL_SERVER_ERROR: nat := 500

  /** The statuses the core raises a `NotFoundError` with: the default 404, and 400. */
  type NotFoundStatus = s: nat | s == 404 || s == 400 witness 404

  /** The "No value changes!" error: a `NotFoundError` raised with status 400. */
  const NoChanges: Error := NotFound(BAD_REQUEST)

  /** The HTTP status each error carries. */
  function Status(e: Error): (code: nat)
    ensures e.NotFound? ==> code == e.status
    ensures 400 <= code <= 500
    ensures code == INTERNAL_SERVER_ERROR <==> e == Internal
  {
    match e
    case BadRequest => BAD_REQUEST
    case NotFound(s) => s
    case Duplicate => CONFLICT
    case Internal => INTERNAL_SERVER_ERROR
  }

  datatype Result<T> = Ok(value: T) | Err(error: Error)

  /* ---------- identifiers ---------- */

  predicate IsLowerHexDigit(c: char) {
    ('0' <= c <= '9') || ('a' <= c <= 'f')
  }

  predicate IsHexDigit(c: char) {
    IsLowerHexDigit(c) || ('A' <= c <= 'F')
  }

  /** The text an ObjectId prints as: 24 lower-case hexadecimal digits. */
  predicate IsCanonicalId(s: string) {
    |s| == 24 && forall i :: 0 <= i < |s| ==> IsLowerHexDigit(s[i])
  }

  /** An identifier, held in its canonical string form; two ids are equal exactly when their
      canonical strings are. */
  type Id = s: string | IsCanonicalId(s) witness "000000000000000000000000"

  /** `ObjectId.isValid` / `new ObjectId(s)` accept the string: 24 hex digits of either case. */
  predicate IsIdText(s: string) {
    |s| == 24 && forall i :: 0 <= i < |s| ==> IsHexDigit(s[i])
  }

  /** ASCII lower-casing of one character. */
  function LowerChar(c: char): (d: char)
    ensures 'A' <= c <= 'Z' ==> d as int == c as int + 32
    ensures !('A' <= c <= 'Z') ==> d == c
  {
    if 'A' <= c <= 'Z' then (c as int + 32) as char else c
  }

  function Lower(s: string): (r: string)
    ensures |r| == |s|
    ensures forall i :: 0 <= i < |s| ==> r[i] == LowerChar(s[i])
  {
    if s == [] then [] else [LowerChar(s[0])] + Lower(s[1..])
  }

  /** `new ObjectId(s)`: the canonical id a valid id text denotes. */
  function ToId(s: string): (id: Id)
    requires IsIdText(s)
    ensures |id| == |s|
    ensures forall i :: 0 <= i < |s| ==> id[i] == LowerChar(s[i])
  {
    var r := Lower(s);
    assert forall i :: 0 <= i < |r| ==> IsLowerHexDigit(r[i]) by {
      forall i | 0 <= i < |r| ensures IsLowerHexDigit(r[i]) {
        assert IsHexDigit(s[i]);
      }
    }
    r
  }

  /** An id's own text is valid and casts back to the same id. */
  lemma ToIdOfCanonical(id: Id)
    ensures IsIdText(id) && ToId(id) == id
  {
    assert IsIdText(id);
    var r := ToId(id);
    assert |r| == |id|;
    forall i | 0 <= i < |id| ensures r[i] == id[i] {
      assert IsLowerHexDigit(id[i]);
    }
  }

  predicate AllIdTexts(xs: seq<string>) {
    forall i :: 0 <= i < |xs| ==> IsIdText(xs[i])
  }

  /** Mongoose's cast of a list of id strings to ObjectIds. */
  function ToIds(xs: seq<string>): (r: seq<Id>)
    requires AllIdTexts(xs)
    ensures |r| == |xs|
    ensures forall i :: 0 <= i < |xs| ==> r[i] == ToId(xs[i])
  {
    if xs == [] then [] else [ToId(xs[0])] + ToIds(xs[1..])
  }

  /** No element occurs twice. */
  predicate NoDup<T(==)>(s: seq<T>) {
    forall i, j :: 0 <= i < j < |s| ==> s[i] != s[j]
  }

  /** The set of a list's elements is no larger than the list, and as large exactly when no
      element occurs twice. */
  lemma {:induction false} DistinctCount(s: seq<Id>)
    ensures |(set x | x in s)| <= |s|
    ensures |(set x | x in s)| == |s| <==> NoDup(s)
  {
    if s != [] {
      DistinctCount(s[1..]);
      assert (set x | x in s) == {s[0]} + (set x | x in s[1..]);
      if s[0] in s[1..] {
        var j :| 0 <= j < |s[1..]| && s[1..][j] == s[0];
        assert s[0] == s[j + 1];
        assert (set x | x in s) == (set x | x in s[1..]);
      } else {
        assert NoDup(s) <==> NoDup(s[1..]) by {
          if NoDup(s[1..]) {
            forall i, j | 0 <= i < j < |s| ensures s[i] != s[j] {
              if i > 0 { assert s[i] == s[1..][i - 1] && s[j] == s[1..][j - 1]; }
            }
          }
        }
      }
    }
  }

  /** A subset as large as its superset is the whole superset. */
  lemma SubsetCount(a: set<Id>, b: set<Id>)
    requires a <= b
    ensures |a| <= |b|
    ensures |a| == |b| ==> a == b
  {
    assert b == a + (b - a);
    assert |b| == |a| + |b - a|;
    if |a| == |b| {
      assert b - a == {};
    }
  }

  /** A map holding the members of `s` that lie in `pool` has as many entries as `s` has
      elements exactly when the members of `s` are distinct and all lie in `pool`. */
  lemma SelectionCount<T>(found: map<Id, T>, pool: set<Id>, s: seq<Id>)
    requires forall k :: k in found <==> k in pool && k in s
    ensures |found| == |s| <==> NoDup(s) && forall x :: x in s ==> x in pool
  {
    var all := set x | x in s;
    var keys := found.Keys;
    assert |found| == |keys|;
    assert keys <= all;
    DistinctCount(s);
    SubsetCount(keys, all);
    if forall x :: x in s ==> x in pool {
      assert all <= keys;
      assert keys == all;
    }
    if |found| == |s| {
      assert keys == all;
      forall x | x in s ensures x in pool {
        assert x in all;
      }
    }
  }

  /** A text of 24 upper-case letters and its lower-case form are two different texts that
      denote the same id. */
  lemma CaseVariants()
    ensures var upper, lower := seq(24, _ => 'A'), seq(24, _ => 'a');
      IsIdText(upper) && IsIdText(lower) && upper != lower && ToId(upper) == ToId(lower)
  {
    var upper: string, lower: string := seq(24, _ => 'A'), seq(24, _ => 'a');
    assert IsIdText(upper) && IsIdText(lower);
    assert upper[0] != lower[0];
    var u, l := ToId(upper), ToId(lower);
    forall i | 0 <= i < 24 ensures u[i] == l[i] {
      assert upper[i] == 'A' && lower[i] == 'a';
    }
  }

  /* ---------- list updates ---------- */

  /** `$addToSet: { $each: xs }`: every element of `xs` not already present is appended, in the
      order of `xs`; an element repeated in `xs` is added once. */
  function AddToSet(s: seq<Id>, xs: seq<Id>): (r: seq<Id>)
    ensures |s| <= |r| <= |s| + |xs| && r[..|s|] == s
    ensures forall x :: x in r <==> x in s || x in xs
    ensures NoDup(s) ==> NoDup(r)
    ensures NoDup(r[|s|..]) && forall y :: y in r[|s|..] ==> y !in s
    decreases |xs|
  {
    if xs == [] then s
    else if xs[0] in s then AddToSet(s, xs[1..])
    else
      var s' := s + [xs[0]];
      var r := AddToSet(s', xs[1..]);
      assert r[..|s|] == s'[..|s|] == s;
      assert r[|s|..] == [xs[0]] + r[|s'|..];
      r
  }

  /** `list.filter(e => !e.equals(x))`: every occurrence of `x` removed, the rest in order. */
  function Without(s: seq<Id>, x: Id): (r: seq<Id>)
    ensures |r| <= |s|
    ensures forall y :: y in r <==> y in s && y != x
    ensures x !in s ==> r == s
    ensures NoDup(s) ==> NoDup(r)
  {
    if s == [] then []
    else
      var rest := Without(s[1..], x);
      assert NoDup(s) ==> NoDup(s[1..]) && s[0] !in s[1..];
      (if s[0] == x then [] else [s[0]]) + rest
  }

  /** The filter drops every copy of `x` and keeps every other id as often as it occurred. */
  lemma {:induction false} WithoutCounts(s: seq<Id>, x: Id)
    ensures multiset(Without(s, x)) == multiset(s)[x := 0]
  {
    if s != [] {
      WithoutCounts(s[1..], x);
      var h, t := s[0], s[1..];
      var rest := Without(t, x);
      assert [h] + t == s;
      ConsCount(h, t);
      if h != x {
        assert Without(s, x) == [h] + rest;
        ConsCount(h, rest);
      }
    }
  }

  lemma ConsCount(h: Id, t: seq<Id>)
    ensures multiset([h] + t) == multiset{h} + multiset(t)
  {
  }

  /** The filter works element by element, so the ids it keeps stay in their order: filtering
      a concatenation filters each part. */
  lemma {:induction false} WithoutConcat(a: seq<Id>, b: seq<Id>, x: Id)
    ensures Without(a + b, x) == Without(a, x) + Without(b, x)
  {
    if a != [] {
      assert (a + b)[1..] == a[1..] + b;
      WithoutConcat(a[1..], b, x);
    } else {
      assert a + b == b;
    }
  }

  /** Appending an element the list lacks keeps it repeat-free. */
  lemma NoDupAppend(s: seq<Id>, x: Id)
    requires NoDup(s) && x !in s
    ensures NoDup(s + [x])
  {
  }

  /** Removing an id just appended to a list that did not hold it gives the list back. */
  lemma {:induction false} WithoutAppended(s: seq<Id>, x: Id)
    requires x !in s
    ensures Without(s + [x], x) == s
  {
    if s != [] {
      assert (s + [x])[1..] == s[1..] + [x];
      WithoutAppended(s[1..], x);
    } else {
      assert Without([x][1..], x) == [];
    }
  }

  /* ---------- documents ---------- */

  datatype Gender = Male | Female | Other

  /** A stored student document. Mongoose gives an absent `courses` array the default `[]`, so a
      stored document always has a list. Dates are integer instants. */
  datatype Student = Student(
    fullNameEn: string,
    fullNameKm: string,
    dateOfBirth: int,
    gender: Gender,
    phoneNumber: string,
    courses: seq<Id>,
    isDeleted: bool,
    createAt: int)

  /** A stored course document. */
  datatype Course = Course(
    name: string,
    professorName: string,
    limitNumberOfStudents: int,
    startDate: int,
    endDate: int,
    enrolledStudents: seq<Id>,
    isDeleted: bool,
    createAt: int)

  /** The body of a create-student request; course ids arrive as strings. */
  datatype StudentInput = StudentInput(
    fullNameEn: string,
    fullNameKm: string,
    dateOfBirth: int,
    gender: Gender,
    phoneNumber: string,
    courses: Option<seq<string>>)

  /** The body of a create-course request; student ids arrive as strings. */
  datatype CourseInput = CourseInput(
    name: string,
    professorName: string,
    limitNumberOfStudents: int,
    startDate: int,
    endDate: int,
    enrolledStudents: seq<string>)

  /** The body of an update-student request: every field optional. */
  datatype StudentPatch = StudentPatch(
    fullNameEn: Option<string>,
    fullNameKm: Option<string>,
    gender: Option<Gender>,
    dateOfBirth: Option<int>,
    phoneNumber: Option<string>,
    courses: Option<seq<string>>)

  /** The body of an update-course request: every field optional. */
  datatype CoursePatch = CoursePatch(
    name: Option<string>,
    professorName: Option<string>,
    limitNumberOfStudents: Option<int>,
    startDate: Option<int>,
    endDate: Option<int>,
    enrolledStudents: Option<seq<string>>)

  /** A JavaScript truthiness test on an optional string field: present and not "". */
  predicate SuppliedText(o: Option<string>) {
    o.Some? && o.value != ""
  }

  /** The value an update leaves in a field: the given one, or the current one when absent. */
  function Pick<T>(o: Option<T>, current: T): T {
    if o.Some? then o.value else current
  }

  /** A patch value counts for the delta when it is supplied and differs from the stored one. */
  function Changed<T(==)>(o: Option<T>, current: T): (r: Option<T>)
    ensures r.Some? <==> o.Some? && o.value != current
    ensures r.Some? ==> r == o
    ensures Pick(r, current) == Pick(o, current)
  {
    if o.Some? && o.value != current then o else None
  }

  /** The same for a string field, which must also be truthy (not ""). */
  function ChangedText(o: Option<string>, current: string): (r: Option<string>)
    ensures r.Some? <==> SuppliedText(o) && o.value != current
    ensures r.Some? ==> r == o
    ensures Pick(r, current) == (if SuppliedText(o) then o.value else current)
  {
    if SuppliedText(o) then Changed(o, current) else None
  }

  /* ---------- text search ---------- */

  /** `needle` occurs in `hay` starting at position `i`. */
  predicate OccursAt(hay: string, needle: string, i: int) {
    0 <= i <= |hay| - |needle| && hay[i..i + |needle|] == needle
  }

  /** `needle` occurs in `hay` at some position. */
  predicate Contains(hay: string, needle: string) {
    exists i :: 0 <= i <= |hay| - |needle| && OccursAt(hay, needle, i)
  }

  /** A case-insensitive `$regex` match, with the search term read as a literal. */
  predicate MatchesIgnoringCase(field: string, term: string) {
    Contains(Lower(field), Lower(term))
  }

  lemma EmptyTermMatchesEverything(field: string)
    ensures MatchesIgnoringCase(field, "")
  {
    assert OccursAt(Lower(field), Lower(""), 0);
  }
}
