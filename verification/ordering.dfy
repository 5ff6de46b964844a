/**
 The `OrderBy` / `ThenBy` clauses of the repository queries. Each ordering is
 a sort key (a sequence of integers compared lexicographically) and results
 are sorted by insertion.
 */
module Ordering {
  import opened Text
  import opened Domain

  /** The three orderings the repository uses. */
  datatype SortOrder =
    | ByCreatedAt       // OrderBy(u => u.CreatedAt)
    | ByName            // OrderBy(u => u.Name)
    | BySkillThenName   // OrderBy(u => u.SkillLevel).ThenBy(u => u.Name)

  /** Key of a nullable integer column in ascending order, nulls last. */
  function NullsLast(v: Option<int>): (k: seq<int>)
    ensures v.None? ==> k == [1]
    ensures v.Some? ==> k == [0, v.value]
  {
    match v
    case Some(x) => [0, x]
    case None => [1]
  }

  function Key(o: SortOrder, u: User): seq<int>
  {
    match o
    case ByCreatedAt => NullsLast(u.createdAt)
    case ByName => Codes(u.name)
    case BySkillThenName => NullsLast(u.skillLevel) + Codes(u.name)
  }

  /** `a` may come before `b` under ordering `o`. */
  predicate InOrder(o: SortOrder, a: User, b: User)
  {
    LexLe(Key(o, a), Key(o, b))
  }

  ghost predicate Sorted(o: SortOrder, s: seq<User>)
  {
    forall i, j :: 0 <= i < j < |s| ==> InOrder(o, s[i], s[j])
  }

  /** A sorted sequence stays sorted when an element that may precede all of it is put in front. */
  lemma ConsSorted(o: SortOrder, h: User, s: seq<User>)
    requires Sorted(o, s)
    requires forall y :: y in s ==> InOrder(o, h, y)
    ensures Sorted(o, [h] + s)
  {
    var r := [h] + s;
    forall i, j | 0 <= i < j < |r| ensures InOrder(o, r[i], r[j]) {
      if i == 0 {
        assert r[j] == s[j - 1];
      } else {
        assert r[i] == s[i - 1] && r[j] == s[j - 1];
      }
    }
  }

  /** Insert `x` into the sorted sequence `s`, after every element that does not follow it. */
  function Insert(o: SortOrder, x: User, s: seq<User>): (r: seq<User>)
    requires Sorted(o, s)
    ensures Sorted(o, r)
    ensures multiset(r) == multiset(s) + multiset{x}
    decreases |s|
  {
    if |s| == 0 then [x]
    else if InOrder(o, x, s[0]) then
      InsertFront(o, x, s);
      [x] + s
    else
      var rest := Insert(o, x, s[1..]);
      InsertBehind(o, x, s, rest);
      [s[0]] + rest
  }

  /** `x` may precede the head of `s`, hence all of it. */
  lemma InsertFront(o: SortOrder, x: User, s: seq<User>)
    requires Sorted(o, s) && |s| > 0 && InOrder(o, x, s[0])
    ensures Sorted(o, [x] + s)
    ensures multiset([x] + s) == multiset(s) + multiset{x}
  {
    forall y | y in s ensures InOrder(o, x, y) {
      var j :| 0 <= j < |s| && s[j] == y;
      if j > 0 {
        LexLeTransitive(Key(o, x), Key(o, s[0]), Key(o, s[j]));
      }
    }
    ConsSorted(o, x, s);
  }

  /** `x` follows the head of `s`, so the head goes in front of the rest with `x` inserted. */
  lemma InsertBehind(o: SortOrder, x: User, s: seq<User>, rest: seq<User>)
    requires Sorted(o, s) && |s| > 0 && !InOrder(o, x, s[0])
    requires Sorted(o, rest) && multiset(rest) == multiset(s[1..]) + multiset{x}
    ensures Sorted(o, [s[0]] + rest)
    ensures multiset([s[0]] + rest) == multiset(s) + multiset{x}
  {
    forall y | y in rest ensures InOrder(o, s[0], y) {
      HeadBeforeInserted(o, x, s, rest, y);
    }
    ConsSorted(o, s[0], rest);
    ConsMultiset(s, rest, x);
  }

  /** Putting the head back in front of the tail with `x` added gives the whole with `x` added. */
  lemma ConsMultiset(s: seq<User>, rest: seq<User>, x: User)
    requires |s| > 0 && multiset(rest) == multiset(s[1..]) + multiset{x}
    ensures multiset([s[0]] + rest) == multiset(s) + multiset{x}
  {
    assert s == [s[0]] + s[1..];
  }

  /** Every element of `rest` (the tail of `s` with `x` inserted) may follow the head of `s`. */
  lemma HeadBeforeInserted(o: SortOrder, x: User, s: seq<User>, rest: seq<User>, y: User)
    requires Sorted(o, s) && |s| > 0 && !InOrder(o, x, s[0])
    requires multiset(rest) == multiset(s[1..]) + multiset{x}
    requires y in rest
    ensures InOrder(o, s[0], y)
  {
    assert y in multiset(rest);
    if y == x {
      LexLeTotal(Key(o, x), Key(o, s[0]));
    } else {
      assert y in multiset(s[1..]);
      HeadFirst(o, s, y);
    }
  }

  /** The head of a sorted sequence may precede every later element. */
  lemma HeadFirst(o: SortOrder, s: seq<User>, y: User)
    requires Sorted(o, s) && |s| > 0 && y in s[1..]
    ensures InOrder(o, s[0], y)
  {
    var j :| 0 <= j < |s[1..]| && s[1..][j] == y;
    assert s[j + 1] == y;
  }

  /** Insertion sort: the same users, ordered by `o`. */
  function Sort(o: SortOrder, s: seq<User>): (r: seq<User>)
    ensures Sorted(o, r)
    ensures multiset(r) == multiset(s)
    decreases |s|
  {
    if |s| == 0 then []
    else
      assert s == [s[0]] + s[1..];
      Insert(o, s[0], Sort(o, s[1..]))
  }

  /** Sorting keeps exactly the users it was given. */
  lemma SortSameMembers(o: SortOrder, s: seq<User>)
    ensures forall u :: u in Sort(o, s) <==> u in s
    ensures |Sort(o, s)| == |s|
  {
    var r := Sort(o, s);
    assert forall u :: u in r <==> u in multiset(r);
    assert forall u :: u in s <==> u in multiset(s);
    assert |r| == |multiset(r)|;
  }

  /** The `BySkillThenName` key is the skill level followed by the name. */
  lemma SkillKeyShape(u: User)
    requires u.skillLevel.Some?
    ensures Key(BySkillThenName, u) == [0] + ([u.skillLevel.value] + Codes(u.name))
  {
  }

  /** Under `BySkillThenName`, two users with a skill level are ordered by it. */
  lemma SkillOrderedFirst(a: User, b: User)
    requires a.skillLevel.Some? && b.skillLevel.Some?
    requires InOrder(BySkillThenName, a, b)
    ensures a.skillLevel.value <= b.skillLevel.value
  {
    SkillKeyShape(a);
    SkillKeyShape(b);
    var ta, tb := [a.skillLevel.value] + Codes(a.name), [b.skillLevel.value] + Codes(b.name);
    LexLeCommonHead(0, ta, tb);
    assert ta[0] == a.skillLevel.value && tb[0] == b.skillLevel.value;
  }

  /** Under `BySkillThenName`, users with the same skill level are ordered by name. */
  lemma NameBreaksSkillTies(a: User, b: User)
    requires a.skillLevel.Some? && a.skillLevel == b.skillLevel
    requires InOrder(BySkillThenName, a, b)
    ensures LexLe(Codes(a.name), Codes(b.name))
  {
    SkillKeyShape(a);
    SkillKeyShape(b);
    var s := a.skillLevel.value;
    LexLeCommonHead(0, [s] + Codes(a.name), [s] + Codes(b.name));
    LexLeCommonHead(s, Codes(a.name), Codes(b.name));
  }

  /** Ascending creation time, rows without one last. */
  predicate CreatedNoLater(a: User, b: User)
  {
    && (a.createdAt.None? ==> b.createdAt.None?)
    && (a.createdAt.Some? && b.createdAt.Some? ==> a.createdAt.value <= b.createdAt.value)
  }

  /** What the `ByCreatedAt` key order means for the column. */
  lemma CreatedAtOrder(a: User, b: User)
    requires InOrder(ByCreatedAt, a, b)
    ensures CreatedNoLater(a, b)
  {
    var ka, kb := Key(ByCreatedAt, a), Key(ByCreatedAt, b);
    if a.createdAt.Some? && b.createdAt.Some? {
      LexLeCommonHead(0, [a.createdAt.value], [b.createdAt.value]);
    }
  }
}
