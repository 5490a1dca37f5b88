/** The collapsing of raw records that share a display name: the records
    of one name are fused into the first of them, property by property, and
    only the first record of every name is kept. */
module ProgramRegInfoFusion {
  import opened Wrappers
  import opened Collections
  import opened Text
  import opened ProgramRegInfoData

  // ---------------------------------------------------------------------
  // Fusing values

  predicate AllComplete(vs: seq<RegValues>)
  {
    forall k :: 0 <= k < |vs| ==> Complete(vs[k])
  }

  /** The display name a record is grouped by. */
  function Name(v: RegValues): Option<string>
  {
    if DisplayName in v then v[DisplayName] else None
  }

  /** One property, one member: a null or empty value takes the member's value. */
  function Fill(cur: Option<string>, next: Option<string>): Option<string>
  {
    if IsNullOrEmpty(cur) then next else cur
  }

  /** One property after filling from every member's value, in order. */
  function FuseColumn(cur: Option<string>, col: seq<Option<string>>): Option<string>
  {
    if col == [] then cur else Fill(FuseColumn(cur, col[..|col| - 1]), col[|col| - 1])
  }

  /** The values of one property across a group. */
  function Column(g: seq<RegValues>, f: RegField): (col: seq<Option<string>>)
    requires AllComplete(g)
    ensures |col| == |g| && forall k :: 0 <= k < |g| ==> col[k] == g[k][f]
  {
    seq(|g|, k requires 0 <= k < |g| => g[k][f])
  }

  /** `FuseDuplicates`: the first record, filled property by property from
      every record of the group, the first one included. */
  function FuseGroup(g: seq<RegValues>): (r: RegValues)
    requires g != [] && AllComplete(g)
    ensures Complete(r)
    ensures forall f :: r[f] == FuseColumn(g[0][f], Column(g, f))
  {
    var fs := AllRegFields();
    assert forall f: RegField :: f in fs by {
      forall f: RegField ensures f in fs {
        assert fs[FieldIndex(f)] == f;
      }
    }
    map f | f in fs :: FuseColumn(g[0][f], Column(g, f))
  }

  /** The reference reading of a fused property: the first value set in
      the column, or its last value when none is set. */
  function FirstSetOrLast(col: seq<Option<string>>): Option<string>
    requires col != []
  {
    if !IsNullOrEmpty(col[0]) || |col| == 1 then col[0] else FirstSetOrLast(col[1..])
  }

  /** The reference reading, stated by positions. */
  lemma {:induction false} FirstSetOrLastSpec(col: seq<Option<string>>)
    requires col != []
    ensures (forall k :: 0 <= k < |col| ==> IsNullOrEmpty(col[k])) ==> FirstSetOrLast(col) == col[|col| - 1]
    ensures forall i :: 0 <= i < |col| && !IsNullOrEmpty(col[i]) && (forall k :: 0 <= k < i ==> IsNullOrEmpty(col[k]))
                        ==> FirstSetOrLast(col) == col[i]
  {
    if IsNullOrEmpty(col[0]) && |col| > 1 {
      var rest := col[1..];
      FirstSetOrLastSpec(rest);
      assert forall k :: 0 <= k < |rest| ==> rest[k] == col[k + 1];
      forall i | 0 < i < |col| && !IsNullOrEmpty(col[i]) && (forall k :: 0 <= k < i ==> IsNullOrEmpty(col[k]))
        ensures FirstSetOrLast(col) == col[i]
      {
        assert rest[i - 1] == col[i];
        assert forall k :: 0 <= k < i - 1 ==> IsNullOrEmpty(rest[k]) by {
          forall k | 0 <= k < i - 1 ensures IsNullOrEmpty(rest[k]) {
            assert rest[k] == col[k + 1];
          }
        }
      }
    }
  }

  /** Filling from a first member, then from the rest, in order. */
  lemma {:induction false} FuseColumnFront(cur: Option<string>, a: Option<string>, rest: seq<Option<string>>)
    ensures FuseColumn(cur, [a] + rest) == FuseColumn(Fill(cur, a), rest)
  {
    if rest == [] {
      assert ([a] + rest)[..0] == [];
    } else {
      var init := rest[..|rest| - 1];
      assert ([a] + rest)[..|rest|] == [a] + init;
      FuseColumnFront(cur, a, init);
    }
  }

  /** A set value is never overwritten. */
  lemma {:induction false} FuseColumnKeepsSet(cur: Option<string>, col: seq<Option<string>>)
    requires !IsNullOrEmpty(cur)
    ensures FuseColumn(cur, col) == cur
  {
    if col != [] {
      FuseColumnKeepsSet(cur, col[..|col| - 1]);
    }
  }

  /** Filling a column's first value from the rest of it is the reference reading. */
  lemma {:induction false} FuseColumnFirstSet(col: seq<Option<string>>)
    requires col != []
    ensures FuseColumn(col[0], col[1..]) == FirstSetOrLast(col)
  {
    var rest := col[1..];
    if !IsNullOrEmpty(col[0]) {
      FuseColumnKeepsSet(col[0], rest);
    } else if rest != [] {
      assert rest == [rest[0]] + rest[1..];
      FuseColumnFront(col[0], rest[0], rest[1..]);
      FuseColumnFirstSet(rest);
    }
  }

  /** `FuseDuplicates` reads a property as the first value set in the group,
      or, when no member sets it, the last member's value. */
  lemma FuseGroupField(g: seq<RegValues>, f: RegField)
    requires g != [] && AllComplete(g)
    ensures FuseGroup(g)[f] == FirstSetOrLast(Column(g, f))
  {
    var col := Column(g, f);
    assert col == [col[0]] + col[1..];
    FuseColumnFront(col[0], col[0], col[1..]);
    FuseColumnFirstSet(col);
  }

  /** A group of one record is that record. */
  lemma FuseSingleton(v: RegValues)
    requires Complete(v)
    ensures FuseGroup([v]) == v
  {
    forall f ensures FuseGroup([v])[f] == v[f] {
      FuseGroupField([v], f);
    }
  }

  /** Records that share a display name keep it when fused. */
  lemma FuseGroupName(g: seq<RegValues>, n: Option<string>)
    requires g != [] && AllComplete(g)
    requires forall k :: 0 <= k < |g| ==> Name(g[k]) == n
    ensures Name(FuseGroup(g)) == n
  {
    FuseGroupField(g, DisplayName);
    var col := Column(g, DisplayName);
    FirstSetOrLastSpec(col);
    if !IsNullOrEmpty(n) {
      assert !IsNullOrEmpty(col[0]);
    }
  }

  // ---------------------------------------------------------------------
  // Fusing a list of records

  /** The records of one display name, in list order: `Where(x => x.DisplayName == name)`. */
  function Group(vs: seq<RegValues>, n: Option<string>): (g: seq<RegValues>)
  {
    if vs == [] then []
    else Group(vs[..|vs| - 1], n) + (if Name(vs[|vs| - 1]) == n then [vs[|vs| - 1]] else [])
  }

  /** A group holds exactly the records of its name. */
  lemma {:induction false} GroupSpec(vs: seq<RegValues>, n: Option<string>)
    ensures forall k :: 0 <= k < |Group(vs, n)| ==> Name(Group(vs, n)[k]) == n
    ensures forall k :: 0 <= k < |vs| && Name(vs[k]) == n ==> vs[k] in Group(vs, n)
    ensures forall v :: v in Group(vs, n) ==> v in vs
  {
    if vs != [] {
      var init := vs[..|vs| - 1];
      GroupSpec(init, n);
      forall k | 0 <= k < |vs| - 1 && Name(vs[k]) == n ensures vs[k] in Group(vs, n) {
        assert init[k] == vs[k];
      }
    }
  }

  /** A group of no record's name is empty. */
  lemma {:induction false} GroupEmpty(vs: seq<RegValues>, n: Option<string>)
    requires forall k :: 0 <= k < |vs| ==> Name(vs[k]) != n
    ensures Group(vs, n) == []
  {
    if vs != [] {
      var init := vs[..|vs| - 1];
      assert forall k :: 0 <= k < |init| ==> init[k] == vs[k];
      GroupEmpty(init, n);
    }
  }

  /** A group of complete records is made of complete records. */
  lemma GroupComplete(vs: seq<RegValues>, n: Option<string>)
    requires AllComplete(vs)
    ensures AllComplete(Group(vs, n))
  {
    GroupSpec(vs, n);
  }

  /** The groups of a concatenation are the concatenated groups: a record
      from an earlier list comes first in its group. */
  lemma {:induction false} GroupAppend(a: seq<RegValues>, b: seq<RegValues>, n: Option<string>)
    ensures Group(a + b, n) == Group(a, n) + Group(b, n)
  {
    if b == [] {
      assert a + b == a;
    } else {
      var init := b[..|b| - 1];
      assert (a + b)[..|a + b| - 1] == a + init;
      GroupAppend(a, init, n);
    }
  }

  /** No record before position `k` has the display name of the record at `k`. */
  predicate IsFirst(vs: seq<RegValues>, k: nat)
    requires k < |vs|
  {
    forall j :: 0 <= j < k ==> Name(vs[j]) != Name(vs[k])
  }

  /** The group of the first record of a name starts with that record. */
  lemma {:induction false} GroupOfFirst(vs: seq<RegValues>, k: nat)
    requires k < |vs| && IsFirst(vs, k)
    ensures Group(vs, Name(vs[k])) != [] && Group(vs, Name(vs[k]))[0] == vs[k]
  {
    var init := vs[..|vs| - 1];
    if k < |vs| - 1 {
      assert init[k] == vs[k];
      assert IsFirst(init, k);
      GroupOfFirst(init, k);
    } else {
      assert forall j :: 0 <= j < |init| ==> init[j] == vs[j];
      GroupEmpty(init, Name(vs[k]));
    }
  }

  /** The positions among the first `m` records of the first record of
      each display name, in order: the records `FuseAllDuplicates` keeps. */
  function FirstIndices(vs: seq<RegValues>, m: nat): (ks: seq<nat>)
    requires m <= |vs|
    ensures forall j :: 0 <= j < |ks| ==> ks[j] < m && IsFirst(vs, ks[j])
    ensures forall i, j :: 0 <= i < j < |ks| ==> ks[i] < ks[j]
  {
    if m == 0 then [] else FirstIndices(vs, m - 1) + if IsFirst(vs, m - 1) then [m - 1] else []
  }

  /** Every first record of its display name is kept. */
  lemma {:induction false} FirstIndicesComplete(vs: seq<RegValues>, m: nat, k: nat)
    requires k < m <= |vs| && IsFirst(vs, k)
    ensures k in FirstIndices(vs, m)
  {
    if k < m - 1 {
      FirstIndicesComplete(vs, m - 1, k);
    }
  }

  /** Every record has a first record of its display name at or before it. */
  lemma {:induction false} FirstOfName(vs: seq<RegValues>, k: nat) returns (i: nat)
    requires k < |vs|
    ensures i <= k && IsFirst(vs, i) && Name(vs[i]) == Name(vs[k])
  {
    if IsFirst(vs, k) {
      i := k;
    } else {
      var j :| 0 <= j < k && Name(vs[j]) == Name(vs[k]);
      i := FirstOfName(vs, j);
    }
  }

  /** The record kept for the first record of a display name: the group of
      that name, fused. */
  function Fused(vs: seq<RegValues>, k: nat): (r: RegValues)
    requires AllComplete(vs) && k < |vs| && IsFirst(vs, k)
    ensures Complete(r)
  {
    GroupOfFirst(vs, k);
    GroupComplete(vs, Name(vs[k]));
    FuseGroup(Group(vs, Name(vs[k])))
  }

  /** `FuseAllDuplicates`: the first record of every display name, in list
      order, each fused with the whole group of its name. */
  function FuseAll(vs: seq<RegValues>): (r: seq<RegValues>)
    requires AllComplete(vs)
    ensures AllComplete(r)
  {
    var ks := FirstIndices(vs, |vs|);
    seq(|ks|, j requires 0 <= j < |ks| => Fused(vs, ks[j]))
  }

  /** The positions of the records of one display name, in order. */
  function GroupIndices(vs: seq<RegValues>, n: Option<string>): (ks: seq<nat>)
    ensures forall j :: 0 <= j < |ks| ==> ks[j] < |vs| && Name(vs[ks[j]]) == n
    ensures forall i, j :: 0 <= i < j < |ks| ==> ks[i] < ks[j]
  {
    if vs == [] then []
    else GroupIndices(vs[..|vs| - 1], n) + (if Name(vs[|vs| - 1]) == n then [|vs| - 1] else [])
  }

  /** One more record: its position joins the group's positions when it has the group's name. */
  lemma GroupIndicesStep(vs: seq<RegValues>, k: nat, n: Option<string>)
    requires k < |vs|
    ensures GroupIndices(vs[..k + 1], n) == GroupIndices(vs[..k], n) + (if Name(vs[k]) == n then [k] else [])
  {
    assert vs[..k + 1][..k] == vs[..k];
  }

  /** The group is the records at the group's positions. */
  lemma {:induction false} GroupByIndices(vs: seq<RegValues>, n: Option<string>)
    ensures |Group(vs, n)| == |GroupIndices(vs, n)|
    ensures forall j :: 0 <= j < |Group(vs, n)| ==> Group(vs, n)[j] == vs[GroupIndices(vs, n)[j]]
  {
    if vs != [] {
      var init := vs[..|vs| - 1];
      GroupByIndices(init, n);
      assert forall j :: 0 <= j < |init| ==> init[j] == vs[j];
    }
  }

  /** The group of the first record of a name starts at that record. */
  lemma {:induction false} GroupIndicesOfFirst(vs: seq<RegValues>, k: nat)
    requires k < |vs| && IsFirst(vs, k)
    ensures GroupIndices(vs, Name(vs[k])) != [] && GroupIndices(vs, Name(vs[k]))[0] == k
  {
    GroupOfFirst(vs, k);
    GroupByIndices(vs, Name(vs[k]));
    var ks := GroupIndices(vs, Name(vs[k]));
    assert ks[0] <= k by {
      GroupIndicesHas(vs, Name(vs[k]), k);
      var j :| 0 <= j < |ks| && ks[j] == k;
    }
  }

  /** Every record of a display name is in its group. */
  lemma {:induction false} GroupIndicesHas(vs: seq<RegValues>, n: Option<string>, k: nat)
    requires k < |vs| && Name(vs[k]) == n
    ensures k in GroupIndices(vs, n)
  {
    if k < |vs| - 1 {
      var init := vs[..|vs| - 1];
      assert init[k] == vs[k];
      GroupIndicesHas(init, n, k);
    }
  }

  /** Two lists that agree on every display name, and on every record of
      name `n`, have the same group of `n`. */
  lemma {:induction false} GroupSameOnName(a: seq<RegValues>, b: seq<RegValues>, n: Option<string>)
    requires |a| == |b|
    requires forall k :: 0 <= k < |a| ==> Name(a[k]) == Name(b[k])
    requires forall k :: 0 <= k < |a| && Name(a[k]) == n ==> a[k] == b[k]
    ensures Group(a, n) == Group(b, n) && GroupIndices(a, n) == GroupIndices(b, n)
  {
    if a != [] {
      var ia := a[..|a| - 1];
      var ib := b[..|b| - 1];
      assert forall k :: 0 <= k < |ia| ==> ia[k] == a[k] && ib[k] == b[k];
      GroupSameOnName(ia, ib, n);
    }
  }

  predicate DistinctNames(vs: seq<RegValues>)
  {
    forall i, j :: 0 <= i < j < |vs| ==> Name(vs[i]) != Name(vs[j])
  }

  function NameSet(vs: seq<RegValues>): set<Option<string>>
  {
    set k | 0 <= k < |vs| :: Name(vs[k])
  }

  lemma NameSetAppend(a: seq<RegValues>, b: seq<RegValues>)
    ensures NameSet(a + b) == NameSet(a) + NameSet(b)
  {
    var ab := a + b;
    forall x | x in NameSet(ab) ensures x in NameSet(a) + NameSet(b) {
      var k :| 0 <= k < |ab| && Name(ab[k]) == x;
      if k >= |a| {
        assert ab[k] == b[k - |a|];
      } else {
        assert ab[k] == a[k];
      }
    }
    forall x | x in NameSet(a) ensures x in NameSet(ab) {
      var k :| 0 <= k < |a| && Name(a[k]) == x;
      assert ab[k] == a[k];
    }
    forall x | x in NameSet(b) ensures x in NameSet(ab) {
      var k :| 0 <= k < |b| && Name(b[k]) == x;
      assert ab[k + |a|] == b[k];
    }
  }

  /** The fused group of a first record carries that record's display name. */
  lemma FusedFirstName(vs: seq<RegValues>, k: nat)
    requires AllComplete(vs) && k < |vs| && IsFirst(vs, k)
    ensures Group(vs, Name(vs[k])) != [] && AllComplete(Group(vs, Name(vs[k])))
    ensures Name(FuseGroup(Group(vs, Name(vs[k])))) == Name(vs[k])
  {
    GroupOfFirst(vs, k);
    GroupSpec(vs, Name(vs[k]));
    GroupComplete(vs, Name(vs[k]));
    FuseGroupName(Group(vs, Name(vs[k])), Name(vs[k]));
  }

  /** The record kept for a first record has its display name. */
  lemma FuseAllName(vs: seq<RegValues>, j: nat)
    requires AllComplete(vs) && j < |FuseAll(vs)|
    ensures j < |FirstIndices(vs, |vs|)|
    ensures Name(FuseAll(vs)[j]) == Name(vs[FirstIndices(vs, |vs|)[j]])
  {
    FusedFirstName(vs, FirstIndices(vs, |vs|)[j]);
  }

  /** `FuseAllDuplicates` keeps one record per display name. */
  lemma FuseAllDistinct(vs: seq<RegValues>)
    requires AllComplete(vs)
    ensures DistinctNames(FuseAll(vs))
  {
    var ks := FirstIndices(vs, |vs|);
    var r := FuseAll(vs);
    forall i, j | 0 <= i < j < |r| ensures Name(r[i]) != Name(r[j]) {
      FuseAllName(vs, i);
      FuseAllName(vs, j);
      assert IsFirst(vs, ks[j]) && ks[i] < ks[j];
    }
  }

  /** `FuseAllDuplicates` loses no display name and makes none up. */
  lemma FuseAllNameSet(vs: seq<RegValues>)
    requires AllComplete(vs)
    ensures NameSet(FuseAll(vs)) == NameSet(vs)
  {
    var ks := FirstIndices(vs, |vs|);
    var r := FuseAll(vs);
    forall x | x in NameSet(r) ensures x in NameSet(vs) {
      var j :| 0 <= j < |r| && Name(r[j]) == x;
      FuseAllName(vs, j);
    }
    forall x | x in NameSet(vs) ensures x in NameSet(r) {
      var k :| 0 <= k < |vs| && Name(vs[k]) == x;
      var i := FirstOfName(vs, k);
      FirstIndicesComplete(vs, |vs|, i);
      var j :| 0 <= j < |ks| && ks[j] == i;
      FuseAllName(vs, j);
    }
  }

  /** Each record `FuseAllDuplicates` keeps is the whole group of its name, fused. */
  lemma FuseAllGroups(vs: seq<RegValues>, j: nat)
    requires AllComplete(vs) && j < |FuseAll(vs)|
    ensures var n := Name(FuseAll(vs)[j]);
      Group(vs, n) != [] && AllComplete(Group(vs, n)) && FuseAll(vs)[j] == FuseGroup(Group(vs, n))
  {
    var k := FirstIndices(vs, |vs|)[j];
    FusedFirstName(vs, k);
    assert FuseAll(vs)[j] == Fused(vs, k);
  }

  /** In a list of distinct names a group has at most one record. */
  lemma {:induction false} GroupLength(vs: seq<RegValues>, n: Option<string>)
    requires DistinctNames(vs)
    ensures |Group(vs, n)| <= 1
  {
    if vs != [] {
      var init := vs[..|vs| - 1];
      assert forall k :: 0 <= k < |init| ==> init[k] == vs[k];
      GroupLength(init, n);
      if Name(vs[|vs| - 1]) == n {
        GroupEmpty(init, n);
      }
    }
  }

  /** With distinct names every record is the first of its name. */
  lemma {:induction false} FirstIndicesOfDistinct(vs: seq<RegValues>, m: nat)
    requires DistinctNames(vs) && m <= |vs|
    ensures |FirstIndices(vs, m)| == m && forall j :: 0 <= j < m ==> FirstIndices(vs, m)[j] == j
  {
    if m > 0 {
      FirstIndicesOfDistinct(vs, m - 1);
      assert IsFirst(vs, m - 1);
    }
  }

  /** A list whose display names are distinct is left as it is. */
  lemma FuseAllOfDistinct(vs: seq<RegValues>)
    requires AllComplete(vs) && DistinctNames(vs)
    ensures FuseAll(vs) == vs
  {
    FirstIndicesOfDistinct(vs, |vs|);
    forall j | 0 <= j < |vs| ensures FuseAll(vs)[j] == vs[j] {
      GroupOfFirst(vs, j);
      GroupLength(vs, Name(vs[j]));
      assert Group(vs, Name(vs[j])) == [vs[j]];
      FuseSingleton(vs[j]);
    }
  }

  /** Fusing twice is fusing once. */
  lemma FuseAllIdempotent(vs: seq<RegValues>)
    requires AllComplete(vs)
    ensures FuseAll(FuseAll(vs)) == FuseAll(vs)
  {
    FuseAllDistinct(vs);
    FuseAllOfDistinct(FuseAll(vs));
  }

  /** Values set earlier in a column win over anything after them. */
  lemma {:induction false} FirstSetOrLastAppend(x: seq<Option<string>>, y: seq<Option<string>>)
    requires exists k :: 0 <= k < |x| && !IsNullOrEmpty(x[k])
    ensures FirstSetOrLast(x + y) == FirstSetOrLast(x)
  {
    if IsNullOrEmpty(x[0]) {
      assert |x| > 1;
      assert (x + y)[1..] == x[1..] + y;
      var k :| 0 <= k < |x| && !IsNullOrEmpty(x[k]);
      assert x[1..][k - 1] == x[k];
      FirstSetOrLastAppend(x[1..], y);
    }
  }

  /** The column of two groups is the two columns. */
  lemma ColumnAppend(g: seq<RegValues>, h: seq<RegValues>, f: RegField)
    requires AllComplete(g) && AllComplete(h)
    ensures AllComplete(g + h)
    ensures Column(g + h, f) == Column(g, f) + Column(h, f)
  {
  }

  /** A record of the group that sets `f` sets it in the group's column. */
  lemma GroupColumnHasSet(a: seq<RegValues>, n: Option<string>, f: RegField, k: nat)
    requires AllComplete(a)
    requires k < |a| && Name(a[k]) == n && !IsNullOrEmpty(a[k][f])
    ensures AllComplete(Group(a, n))
    ensures exists j :: 0 <= j < |Group(a, n)| && !IsNullOrEmpty(Column(Group(a, n), f)[j])
  {
    GroupSpec(a, n);
    GroupComplete(a, n);
    var g := Group(a, n);
    assert a[k] in g;
    var j :| 0 <= j < |g| && g[j] == a[k];
    assert Column(g, f)[j] == a[k][f];
  }

  /** Records listed earlier take precedence: when a record of name `n` in
      `a` sets property `f`, the records of `b` do not change what the
      fusion of `a + b` holds there. */
  lemma EarlierRecordsWin(a: seq<RegValues>, b: seq<RegValues>, n: Option<string>, f: RegField, k: nat)
    requires AllComplete(a) && AllComplete(b)
    requires k < |a| && Name(a[k]) == n && !IsNullOrEmpty(a[k][f])
    ensures Group(a, n) != [] && AllComplete(Group(a, n))
    ensures Group(a + b, n) != [] && AllComplete(Group(a + b, n))
    ensures FuseGroup(Group(a + b, n))[f] == FuseGroup(Group(a, n))[f]
  {
    GroupColumnHasSet(a, n, f, k);
    GroupComplete(b, n);
    GroupAppend(a, b, n);
    var ga := Group(a, n);
    var gb := Group(b, n);
    ColumnAppend(ga, gb, f);
    FuseGroupField(ga + gb, f);
    FuseGroupField(ga, f);
    FirstSetOrLastAppend(Column(ga, f), Column(gb, f));
  }

  // ---------------------------------------------------------------------
  // Fusing records in place

  /** The values of a list of records, in the current state. */
  function Values(objs: seq<ProgramRegInfo>): (vs: seq<RegValues>)
    reads objs
    ensures |vs| == |objs| && forall k :: 0 <= k < |objs| ==> vs[k] == objs[k].values
  {
    seq(|objs|, k reads objs requires 0 <= k < |objs| => objs[k].values)
  }

  predicate Distinct(objs: seq<ProgramRegInfo>)
  {
    forall i, j :: 0 <= i < j < |objs| ==> objs[i] != objs[j]
  }

  /** Filling one more member's value into a fused prefix. */
  lemma FuseColumnStep(cur: Option<string>, col: seq<Option<string>>, i: nat)
    requires i < |col|
    ensures FuseColumn(cur, col[..i + 1]) == Fill(FuseColumn(cur, col[..i]), col[i])
  {
    assert col[..i + 1][..i] == col[..i];
  }

  /** The inner loop of `FuseDuplicates`: every property of `target` that is
      null or empty takes `source`'s value. `source` may be `target` itself. */
  method FillFrom(target: ProgramRegInfo, source: ProgramRegInfo)
    requires target.Valid() && source.Valid()
    modifies target
    ensures target.Valid()
    ensures forall f :: target.values[f] == Fill(old(target.values)[f], old(source.values)[f])
  {
    var fs := AllRegFields();
    for k := 0 to |fs|
      invariant target.Valid()
      invariant source != target ==> source.values == old(source.values)
      invariant forall f :: target.values[f] == if f in fs[..k] then Fill(old(target.values)[f], old(source.values)[f])
                                                else old(target.values)[f]
    {
      assert fs[..k + 1] == fs[..k] + [fs[k]];
      if IsNullOrEmpty(target.values[fs[k]]) {
        target.Set(fs[k], source.values[fs[k]]);
      }
    }
    assert forall f :: f in fs[..|fs|] by {
      assert fs[..|fs|] == fs;
      forall f ensures f in fs { assert fs[FieldIndex(f)] == f; }
    }
  }

  /** `FuseDuplicates`: the first record of a group, filled in place from
      every record of the group in order, the first one included; `None`
      for an empty group. The records are distinct objects, so only the
      first changes. */
  method FuseDuplicates(group: seq<ProgramRegInfo>) returns (r: Option<ProgramRegInfo>)
    requires forall k :: 0 <= k < |group| ==> group[k].Valid()
    requires forall k :: 0 < k < |group| ==> group[k] != group[0]
    modifies if group == [] then {} else {group[0]}
    ensures group == [] ==> r == None
    ensures group != [] ==> r == Some(group[0]) && group[0].Valid()
    ensures group != [] ==> AllComplete(old(Values(group))) && group[0].values == FuseGroup(old(Values(group)))
  {
    if group == [] {
      return None;
    }
    var programRegInfo := group[0];
    ghost var g := Values(group);
    for i := 0 to |group|
      invariant programRegInfo.Valid()
      invariant forall k :: 0 < k < |group| ==> group[k].values == g[k]
      invariant forall f :: programRegInfo.values[f] == FuseColumn(g[0][f], Column(g, f)[..i])
    {
      FuseOne(group, i, g);
    }
    FuseColumnsIsGroup(programRegInfo.values, g);
    return Some(programRegInfo);
  }

  /** A record holding every column of the group fused is the fused group. */
  lemma FuseColumnsIsGroup(v: RegValues, g: seq<RegValues>)
    requires g != [] && AllComplete(g) && Complete(v)
    requires forall f :: v[f] == FuseColumn(g[0][f], Column(g, f)[..|g|])
    ensures v == FuseGroup(g)
  {
    forall f ensures f in v && f in FuseGroup(g) && v[f] == FuseGroup(g)[f] {
      assert Column(g, f)[..|g|] == Column(g, f);
    }
    TotalMapsEqual(v, FuseGroup(g));
  }

  /** One pass of `FuseDuplicates`' loop: the first record is filled from the `i`th. */
  method FuseOne(group: seq<ProgramRegInfo>, i: nat, ghost g: seq<RegValues>)
    requires i < |group| == |g| && AllComplete(g) && group[0].Valid()
    requires forall k :: 0 <= k < |group| ==> group[k].Valid()
    requires forall k :: 0 < k < |group| ==> group[k] != group[0]
    requires forall k :: 0 < k < |group| ==> group[k].values == g[k]
    requires forall f :: group[0].values[f] == FuseColumn(g[0][f], Column(g, f)[..i])
    modifies group[0]
    ensures group[0].Valid()
    ensures forall k :: 0 < k < |group| ==> group[k].values == g[k]
    ensures forall f :: group[0].values[f] == FuseColumn(g[0][f], Column(g, f)[..i + 1])
  {
    FillFrom(group[0], group[i]);
    forall f ensures group[0].values[f] == FuseColumn(g[0][f], Column(g, f)[..i + 1]) {
      FuseColumnStep(g[0][f], Column(g, f), i);
    }
  }

  /** `Where(x => x.DisplayName == name)`: the records of one display name,
      in list order, with their positions. */
  method Where(list: seq<ProgramRegInfo>, name: Option<string>) returns (filtered: seq<ProgramRegInfo>, ghost idx: seq<nat>)
    ensures idx == GroupIndices(Values(list), name)
    ensures |filtered| == |idx| && forall j :: 0 <= j < |idx| ==> filtered[j] == list[idx[j]]
  {
    ghost var vs := Values(list);
    filtered := [];
    idx := [];
    for k := 0 to |list|
      invariant idx == GroupIndices(vs[..k], name)
      invariant |filtered| == |idx| && forall j :: 0 <= j < |idx| ==> filtered[j] == list[idx[j]]
    {
      GroupIndicesStep(vs, k, name);
      if Name(list[k].values) == name {
        filtered := filtered + [list[k]];
        idx := idx + [k];
      }
    }
    assert vs[..|list|] == vs;
  }

  /** One more record seen: its display name joins the names seen, and it
      was already among them exactly when it is not the first of its name. */
  lemma NameSetStep(vs: seq<RegValues>, i: nat)
    requires i < |vs|
    ensures NameSet(vs[..i + 1]) == NameSet(vs[..i]) + {Name(vs[i])}
    ensures Name(vs[i]) in NameSet(vs[..i]) <==> !IsFirst(vs, i)
  {
    assert vs[..i + 1] == vs[..i] + [vs[i]];
    NameSetAppend(vs[..i], [vs[i]]);
    assert NameSet([vs[i]]) == {Name(vs[i])};
    if Name(vs[i]) in NameSet(vs[..i]) {
      var k :| 0 <= k < i && Name(vs[..i][k]) == Name(vs[i]);
      assert vs[..i][k] == vs[k];
    }
    if !IsFirst(vs, i) {
      var k :| 0 <= k < i && Name(vs[k]) == Name(vs[i]);
      assert vs[..i][k] == vs[k];
    }
  }

  /** The values of the records after `FuseAllDuplicates` has seen the
      first `i` of them: the first record of each name seen holds its group
      fused, every other record is as it was. */
  function Progress(V: seq<RegValues>, i: nat): (P: seq<RegValues>)
    requires AllComplete(V) && i <= |V|
    ensures |P| == |V| && AllComplete(P)
  {
    seq(|V|, k requires 0 <= k < |V| => if k < i && IsFirst(V, k) then Fused(V, k) else V[k])
  }

  /** Seeing one more record changes at most that record. */
  lemma ProgressStep(V: seq<RegValues>, i: nat)
    requires AllComplete(V) && i < |V|
    ensures Progress(V, i + 1) == if IsFirst(V, i) then Progress(V, i)[i := Fused(V, i)] else Progress(V, i)
  {
    var a := Progress(V, i + 1);
    var b := if IsFirst(V, i) then Progress(V, i)[i := Fused(V, i)] else Progress(V, i);
    forall k | 0 <= k < |V| ensures a[k] == b[k] {
      if k != i {
        assert a[k] == Progress(V, i)[k];
      }
    }
    assert a == b;
  }

  /** While the first record of a name is still unseen, its group is as it was. */
  lemma ProgressGroup(V: seq<RegValues>, i: nat)
    requires AllComplete(V) && i < |V| && IsFirst(V, i)
    ensures Group(Progress(V, i), Name(V[i])) == Group(V, Name(V[i]))
    ensures GroupIndices(Progress(V, i), Name(V[i])) == GroupIndices(V, Name(V[i]))
  {
    var P := Progress(V, i);
    forall k | 0 <= k < |V| ensures Name(P[k]) == Name(V[k]) {
      if k < i && IsFirst(V, k) {
        FusedFirstName(V, k);
      }
    }
    GroupSameOnName(P, V, Name(V[i]));
  }

  /** The body of `FuseAllDuplicates` for the first record of a display
      name: the records of that name, fused into it when there are several,
      or the record itself when it is alone. */
  method KeepFirst(list: seq<ProgramRegInfo>, i: nat, ghost V: seq<RegValues>) returns (kept: Option<ProgramRegInfo>)
    requires i < |list| == |V| && AllComplete(V) && Distinct(list) && IsFirst(V, i)
    requires Values(list) == Progress(V, i)
    modifies list[i]
    ensures kept == Some(list[i]) && list[i].values == Fused(V, i)
  {
    var program := list[i];
    var n := Name(V[i]);
    ProgressGroup(V, i);
    var filtered, idx := Where(list, program.values[DisplayName]);
    GroupIndicesOfFirst(V, i);
    GroupByIndices(V, n);
    GroupComplete(V, n);
    if |filtered| > 1 {
      assert Values(filtered) == Group(V, n);
      kept := FuseDuplicates(filtered);
    } else {
      assert Group(V, n) == [V[i]];
      FuseSingleton(V[i]);
      kept := Some(program);
    }
  }

  /** The bookkeeping of `FuseAllDuplicates` after the first `i` records:
      the names seen are checked, and the records kept are the first ones
      of their names, in order. */
  predicate Tracked(list: seq<ProgramRegInfo>, V: seq<RegValues>, i: nat,
                    kept: seq<ProgramRegInfo>, checked: seq<Option<string>>)
    requires |list| == |V| && i <= |list|
  {
    NameSet(V[..i]) == (set n | n in checked)
    && |kept| == |FirstIndices(V, i)|
    && (forall j :: 0 <= j < |kept| ==> kept[j] == list[FirstIndices(V, i)[j]])
  }

  /** A record whose name is checked already is skipped. */
  lemma TrackedSkip(list: seq<ProgramRegInfo>, V: seq<RegValues>, i: nat,
                    kept: seq<ProgramRegInfo>, checked: seq<Option<string>>)
    requires |list| == |V| && i < |list| && Tracked(list, V, i, kept, checked)
    requires Name(V[i]) in checked
    ensures !IsFirst(V, i) && Tracked(list, V, i + 1, kept, checked)
  {
    NameSetStep(V, i);
    assert Name(V[i]) in NameSet(V[..i]);
    assert FirstIndices(V, i + 1) == FirstIndices(V, i);
  }

  /** The first record of a name is kept and its name checked. */
  lemma TrackedKeep(list: seq<ProgramRegInfo>, V: seq<RegValues>, i: nat,
                    kept: seq<ProgramRegInfo>, checked: seq<Option<string>>)
    requires |list| == |V| && i < |list| && Tracked(list, V, i, kept, checked)
    requires Name(V[i]) !in checked
    ensures IsFirst(V, i) && Tracked(list, V, i + 1, kept + [list[i]], checked + [Name(V[i])])
  {
    NameSetStep(V, i);
    assert Name(V[i]) !in NameSet(V[..i]);
    assert FirstIndices(V, i + 1) == FirstIndices(V, i) + [i];
    assert (set n | n in checked + [Name(V[i])]) == (set n | n in checked) + {Name(V[i])};
  }

  /** One pass of `FuseAllDuplicates`' loop: a record whose display name
      was checked already is skipped; otherwise it is kept, fused with the
      records of its name, and its name is checked. */
  method Visit(list: seq<ProgramRegInfo>, ghost V: seq<RegValues>, i: nat,
               kept: seq<ProgramRegInfo>, checked: seq<Option<string>>)
    returns (kept': seq<ProgramRegInfo>, checked': seq<Option<string>>)
    requires i < |list| == |V| && AllComplete(V) && Distinct(list)
    requires Values(list) == Progress(V, i) && Tracked(list, V, i, kept, checked)
    modifies list[i]
    ensures Values(list) == Progress(V, i + 1) && Tracked(list, V, i + 1, kept', checked')
  {
    kept', checked' := kept, checked;
    var program := list[i];
    ProgressStep(V, i);
    assert program.values == V[i];
    if program.values[DisplayName] in checked {
      TrackedSkip(list, V, i, kept, checked);
      return;
    }
    TrackedKeep(list, V, i, kept, checked);
    ghost var before := Values(list);
    var fused := KeepFirst(list, i, V);
    forall k | 0 <= k < |list| && k != i ensures list[k].values == before[k] {
      assert list[k] != list[i];
    }
    assert Values(list) == before[i := Fused(V, i)];
    if fused.Some? {
      kept' := kept + [fused.value];
    }
    FusedFirstName(V, i);
    checked' := checked + [program.values[DisplayName]];
  }

  /** `FuseAllDuplicates`: walks the records in order; the first record of
      each display name is fused in place with every record of that name
      (a name with one record is kept as it is), and the records kept are
      returned in order. */
  method FuseAllDuplicates(list: seq<ProgramRegInfo>) returns (r: seq<ProgramRegInfo>)
    requires AllComplete(Values(list)) && Distinct(list)
    modifies list
    ensures Values(list) == Progress(old(Values(list)), |list|)
    ensures Values(r) == FuseAll(old(Values(list)))
    ensures Distinct(r) && forall k :: 0 <= k < |r| ==> r[k] in list
  {
    ghost var V := Values(list);
    var programInfosNoDuplicates: seq<ProgramRegInfo> := [];
    var checkedDisplayNames: seq<Option<string>> := [];
    assert Progress(V, 0) == V;
    for i := 0 to |list|
      invariant Values(list) == Progress(V, i)
      invariant Tracked(list, V, i, programInfosNoDuplicates, checkedDisplayNames)
    {
      programInfosNoDuplicates, checkedDisplayNames := Visit(list, V, i, programInfosNoDuplicates, checkedDisplayNames);
    }
    r := programInfosNoDuplicates;
    ghost var ks := FirstIndices(V, |list|);
    forall j | 0 <= j < |r| ensures r[j].values == FuseAll(V)[j] {
      assert r[j] == list[ks[j]];
      assert Progress(V, |list|)[ks[j]] == Fused(V, ks[j]);
    }
    forall k | 0 <= k < |r| ensures r[k] in list {
      assert r[k] == list[ks[k]];
    }
    forall i, j | 0 <= i < j < |r| ensures r[i] != r[j] {
      assert r[i] == list[ks[i]] && r[j] == list[ks[j]] && ks[i] < ks[j];
    }
  }
}
