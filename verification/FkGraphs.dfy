/**
 The graph of foreign keys between tables, the fuelled search that keeps a load from
 closing a cycle, and the proof that it does.
 */
module FkGraphs {
  import opened Values
  import opened TableStates
  import opened Catalogs
  import opened Constraints
  import opened Statements

  /******* The search *******/

  /** fk_chain_reaches: out of fuel counts as reached. */
  predicate ChainReaches(db: Db, i: nat, target: string, fuel: nat)
    requires |db.names| == |db.tables| && i < |db.tables|
    decreases fuel, 1, 0
  {
    fuel == 0 || ColumnsReach(db, i, 0, target, fuel)
  }

  predicate ColumnsReach(db: Db, i: nat, c: nat, target: string, fuel: nat)
    requires |db.names| == |db.tables| && i < |db.tables| && c <= |db.tables[i].schema.fks| && fuel > 0
    decreases fuel, 0, |db.tables[i].schema.fks| - c
  {
    if c == |db.tables[i].schema.fks| then false
    else
      var fk := db.tables[i].schema.fks[c];
      if fk.None? then ColumnsReach(db, i, c + 1, target, fuel)
      else if fk.value.table == target then true
      else
        var j := db.Find(fk.value.table);
        (j.Some? && ChainReaches(db, j.value, target, fuel - 1)) || ColumnsReach(db, i, c + 1, target, fuel)
  }

  /******* The graph *******/

  /** Some column of table i refers to a table of this name. */
  predicate Refers(db: Db, i: nat, name: string)
    requires i < |db.tables|
  {
    exists c :: 0 <= c < |db.tables[i].schema.fks| && db.tables[i].schema.fks[c].Some? && db.tables[i].schema.fks[c].value.table == name
  }

  predicate IsPath(db: Db, p: seq<nat>)
    requires |db.names| == |db.tables|
  {
    && p != [] && (forall k :: 0 <= k < |p| ==> p[k] < |db.tables|)
    && forall k :: 0 <= k < |p| - 1 ==> Refers(db, p[k], db.names[p[k + 1]])
  }

  /** A path from table i whose last table refers to the target. */
  predicate Leads(db: Db, p: seq<nat>, i: nat, target: string)
    requires |db.names| == |db.tables|
  {
    IsPath(db, p) && p[0] == i && Refers(db, p[|p| - 1], target)
  }

  ghost predicate Reaches(db: Db, i: nat, target: string)
    requires |db.names| == |db.tables|
  {
    exists p :: Leads(db, p, i, target)
  }

  ghost predicate Acyclic(db: Db)
    requires |db.names| == |db.tables|
  {
    forall p :: IsPath(db, p) && |p| >= 2 ==> p[0] != p[|p| - 1]
  }

  /** Every table referred to exists, and names are unique. */
  ghost predicate Closed(db: Db) {
    && |db.names| == |db.tables| && DistinctNames(db.names)
    && forall i, name :: 0 <= i < |db.tables| && Refers(db, i, name) ==> name in db.names
  }

  lemma FindsItself(db: Db, j: nat)
    requires DistinctNames(db.names) && j < |db.names|
    ensures db.Find(db.names[j]) == Some(j)
  {
    assert db.names[j] in db.names;
    FirstIndexIsUnique(db.names, db.names[j], db.Find(db.names[j]).value, j);
  }

  /******* The search is exact *******/

  lemma {:induction false} ColumnsReachFound(db: Db, i: nat, c: nat, d: nat, target: string, fuel: nat)
    requires |db.names| == |db.tables| && i < |db.tables| && c <= d < |db.tables[i].schema.fks| && fuel > 0
    requires var fk := db.tables[i].schema.fks[d];
      fk.Some? && (fk.value.table == target || (db.Find(fk.value.table).Some? && ChainReaches(db, db.Find(fk.value.table).value, target, fuel - 1)))
    ensures ColumnsReach(db, i, c, target, fuel)
    decreases d - c
  {
    if c < d {
      ColumnsReachFound(db, i, c + 1, d, target, fuel);
    }
  }

  /** What there is to reach is reached, with any fuel. */
  lemma {:induction false} ReachableIsReached(db: Db, p: seq<nat>, target: string, fuel: nat)
    requires |db.names| == |db.tables| && DistinctNames(db.names) && p != [] && Leads(db, p, p[0], target)
    ensures ChainReaches(db, p[0], target, fuel)
    decreases fuel
  {
    if fuel > 0 {
      var name := if |p| == 1 then target else db.names[p[1]];
      var d :| 0 <= d < |db.tables[p[0]].schema.fks| && db.tables[p[0]].schema.fks[d].Some? && db.tables[p[0]].schema.fks[d].value.table == name;
      if |p| > 1 {
        FindsItself(db, p[1]);
        var rest := p[1..];
        forall k | 0 <= k < |rest| - 1 ensures Refers(db, rest[k], db.names[rest[k + 1]]) {
          assert Refers(db, p[k + 1], db.names[p[k + 2]]);
        }
        assert rest[|rest| - 1] == p[|p| - 1];
        ReachableIsReached(db, rest, target, fuel - 1);
      }
      ColumnsReachFound(db, p[0], 0, d, target, fuel);
    }
  }

  /** The search answers yes for a path to the target, or for a path longer than its fuel. */
  lemma {:induction false} ReachedIsReachable(db: Db, i: nat, target: string, fuel: nat) returns (p: seq<nat>)
    requires |db.names| == |db.tables| && i < |db.tables| && ChainReaches(db, i, target, fuel)
    ensures IsPath(db, p) && p[0] == i && (Leads(db, p, i, target) || |p| == fuel + 1)
    decreases fuel, 1, 0
  {
    if fuel == 0 {
      p := [i];
    } else {
      p := ColumnsReachable(db, i, 0, target, fuel);
    }
  }

  lemma {:induction false} ColumnsReachable(db: Db, i: nat, c: nat, target: string, fuel: nat) returns (p: seq<nat>)
    requires |db.names| == |db.tables| && i < |db.tables| && c <= |db.tables[i].schema.fks| && fuel > 0
    requires ColumnsReach(db, i, c, target, fuel)
    ensures IsPath(db, p) && p[0] == i && (Leads(db, p, i, target) || |p| == fuel + 1)
    decreases fuel, 0, |db.tables[i].schema.fks| - c
  {
    var fk := db.tables[i].schema.fks[c];
    if fk.None? {
      p := ColumnsReachable(db, i, c + 1, target, fuel);
    } else if fk.value.table == target {
      p := [i];
    } else {
      var j := db.Find(fk.value.table);
      if j.Some? && ChainReaches(db, j.value, target, fuel - 1) {
        var rest := ReachedIsReachable(db, j.value, target, fuel - 1);
        p := [i] + rest;
        assert Refers(db, i, db.names[rest[0]]);
      } else {
        p := ColumnsReachable(db, i, c + 1, target, fuel);
      }
    }
  }

  /** Pigeonhole: distinct numbers below n are at most n many. */
  lemma {:induction false} DistinctBelow(s: seq<nat>, n: nat)
    requires forall k :: 0 <= k < |s| ==> s[k] < n
    requires forall j, k :: 0 <= j < k < |s| ==> s[j] != s[k]
    ensures |s| <= n
  {
    assert |s| > 0 ==> s[0] < n;
    if n > 0 {
      if k :| 0 <= k < |s| && s[k] == n - 1 {
        DistinctBelow(s[..k] + s[k + 1..], n - 1);
      } else {
        DistinctBelow(s, n - 1);
      }
    }
  }

  /** In an acyclic graph no path repeats a table. */
  lemma PathsAreShort(db: Db, p: seq<nat>)
    requires |db.names| == |db.tables| && Acyclic(db) && IsPath(db, p)
    ensures |p| <= |db.tables|
  {
    forall j, k | 0 <= j < k < |p| ensures p[j] != p[k] {
      var loop := p[j..k + 1];
      assert IsPath(db, loop) by {
        forall m | 0 <= m < |loop| - 1 ensures Refers(db, loop[m], db.names[loop[m + 1]]) {
          assert Refers(db, p[j + m], db.names[p[j + m + 1]]);
        }
      }
    }
    DistinctBelow(p, |db.tables|);
  }

  /** On an acyclic catalog the search with fuel for every table is exact reachability and never runs out. */
  lemma SearchIsExact(db: Db, i: nat, target: string)
    requires |db.names| == |db.tables| && DistinctNames(db.names) && Acyclic(db) && i < |db.tables|
    ensures ChainReaches(db, i, target, |db.tables|) <==> Reaches(db, i, target)
  {
    if ChainReaches(db, i, target, |db.tables|) {
      var p := ReachedIsReachable(db, i, target, |db.tables|);
      PathsAreShort(db, p);
    }
    if Reaches(db, i, target) {
      var p :| Leads(db, p, i, target);
      ReachableIsReached(db, p, target, |db.tables|);
    }
  }

  /******* Loading keeps the graph acyclic *******/

  /** The foreign-key checks of a load, which may replace a table that others already refer to. */
  predicate ReferencesAllowed(db: Db, name: string, schema: Schema)
    requires |db.names| == |db.tables|
  {
    forall c :: 0 <= c < |schema.fks| && schema.fks[c].Some? ==> ReferenceAllowed(db, name, schema, c)
  }

  predicate ReferenceAllowed(db: Db, name: string, schema: Schema, c: nat)
    requires |db.names| == |db.tables| && c < |schema.fks| && schema.fks[c].Some?
  {
    var fk := schema.fks[c].value;
    var j := db.Find(fk.table);
    && fk.table != name && j.Some?
    && !ChainReaches(db, j.value, name, |db.tables|)
    && var target := db.tables[j.value].schema;
       var k := target.FindColumn(fk.column);
       k.Some? && target.IsPk(k.value) && k.value < |target.types| && c < |schema.types| && target.types[k.value] == schema.types[c]
  }

  /** catalog_put: a table of that name is replaced in place, any other goes to the end. */
  function Put(db: Db, name: string, t: TableState): Db {
    var i := db.Find(name);
    if i.Some? then db.With(i.value, t) else db.Add(name, t)
  }

  function PutAt(db: Db, name: string): nat {
    var i := db.Find(name);
    if i.Some? then i.value else |db.tables|
  }

  lemma PutChangesOneTable(db: Db, name: string, t: TableState)
    requires Closed(db)
    ensures var db', x := Put(db, name, t), PutAt(db, name);
      && |db'.names| == |db'.tables| && x < |db'.tables| && db'.names[x] == name && db'.tables[x] == t
      && DistinctNames(db'.names)
      && (forall i :: 0 <= i < |db'.tables| && i != x ==> i < |db.tables| && db'.names[i] == db.names[i] && db'.tables[i] == db.tables[i])
      && (forall n :: n in db.names ==> n in db'.names)
  {
    var db' := Put(db, name, t);
    if db.Find(name).None? {
      forall i, j | 0 <= i < j < |db'.names| ensures db'.names[i] != db'.names[j] {
        if j == |db.names| {
          assert db.names[i] in db.names;
        }
      }
    }
  }

  /** Turns a cycle so that it starts at its k-th table. */
  lemma Turned(db: Db, p: seq<nat>, k: nat) returns (q: seq<nat>)
    requires |db.names| == |db.tables| && IsPath(db, p) && |p| >= 2 && p[0] == p[|p| - 1] && k < |p|
    ensures IsPath(db, q) && |q| >= 2 && q[0] == q[|q| - 1] == p[k]
  {
    q := p[k..] + p[1..k + 1];
    var n := |p| - k;
    forall m | 0 <= m < |q| - 1 ensures Refers(db, q[m], db.names[q[m + 1]]) {
      if m < n - 1 {
        assert Refers(db, p[k + m], db.names[p[k + m + 1]]);
      } else {
        assert q[m] == p[m - n + 1] && q[m + 1] == p[m - n + 2];
      }
    }
  }

  lemma FirstReturn(q: seq<nat>, m: nat) returns (r: nat)
    requires 1 <= m < |q| && q[|q| - 1] == q[0]
    ensures m <= r < |q| && q[r] == q[0] && forall k :: m <= k < r ==> q[k] != q[0]
    decreases |q| - m
  {
    if q[m] == q[0] {
      r := m;
    } else {
      r := FirstReturn(q, m + 1);
    }
  }

  /** A path that avoids the changed table was there before. */
  lemma OldPath(db: Db, name: string, t: TableState, p: seq<nat>)
    requires Closed(db) && |Put(db, name, t).names| == |Put(db, name, t).tables| && IsPath(Put(db, name, t), p)
    requires forall k :: 0 <= k < |p| ==> p[k] != PutAt(db, name)
    ensures IsPath(db, p)
  {
    var db' := Put(db, name, t);
    PutChangesOneTable(db, name, t);
    forall k | 0 <= k < |p| - 1 ensures Refers(db, p[k], db.names[p[k + 1]]) {
      assert Refers(db', p[k], db'.names[p[k + 1]]);
    }
  }

  /** An accepted load closes no cycle. */
  lemma LoadKeepsAcyclic(db: Db, name: string, t: TableState)
    requires Closed(db) && Acyclic(db) && ReferencesAllowed(db, name, t.schema)
    ensures Closed(Put(db, name, t)) && Acyclic(Put(db, name, t))
  {
    var db', x := Put(db, name, t), PutAt(db, name);
    PutChangesOneTable(db, name, t);
    forall i, n | 0 <= i < |db'.tables| && Refers(db', i, n) ensures n in db'.names {
      if i == x {
        var c :| 0 <= c < |t.schema.fks| && t.schema.fks[c].Some? && t.schema.fks[c].value.table == n;
        assert ReferenceAllowed(db, name, t.schema, c);
        assert n in db.names;
      } else {
        assert Refers(db, i, n);
      }
    }
    forall p | IsPath(db', p) && |p| >= 2 ensures p[0] != p[|p| - 1] {
      if k :| 0 <= k < |p| && p[k] == x {
        NoCycleThroughNew(db, name, t, p, k);
      } else {
        OldPath(db, name, t, p);
      }
    }
  }

  lemma NoCycleThroughNew(db: Db, name: string, t: TableState, p: seq<nat>, k: nat)
    requires Closed(db) && ReferencesAllowed(db, name, t.schema)
    requires |Put(db, name, t).names| == |Put(db, name, t).tables|
    requires IsPath(Put(db, name, t), p) && |p| >= 2 && k < |p| && p[k] == PutAt(db, name)
    ensures p[0] != p[|p| - 1]
  {
    hide ChainReaches, ColumnsReach, DistinctNames, Put, PutAt;
    PutChangesOneTable(db, name, t);
    if p[0] == p[|p| - 1] {
      var q := Turned(Put(db, name, t), p, k);
      var m := FirstReturn(q, 1);
      var back := BackFromReference(db, name, t, q, m);
      ReachableIsReached(db, back, name, |db.tables|);
    }
  }

  /** The way back to the changed table leads through old tables only, from one the load was not allowed to refer to. */
  lemma BackFromReference(db: Db, name: string, t: TableState, q: seq<nat>, m: nat) returns (back: seq<nat>)
    requires Closed(db) && ReferencesAllowed(db, name, t.schema)
    requires |Put(db, name, t).names| == |Put(db, name, t).tables| && IsPath(Put(db, name, t), q)
    requires 1 <= m < |q| && q[0] == q[m] == PutAt(db, name) && forall k :: 1 <= k < m ==> q[k] != q[0]
    ensures back != [] && Leads(db, back, back[0], name) && !ChainReaches(db, back[0], name, |db.tables|)
  {
    hide ChainReaches, ColumnsReach, Put, PutAt;
    var db' := Put(db, name, t);
    PutChangesOneTable(db, name, t);
    assert Refers(db', q[0], db'.names[q[1]]);
    var c :| 0 <= c < |t.schema.fks| && t.schema.fks[c].Some? && t.schema.fks[c].value.table == db'.names[q[1]];
    assert ReferenceAllowed(db, name, t.schema, c);
    assert m > 1;
    back := q[1..m];
    forall j | 0 <= j < |back| - 1 ensures Refers(db', back[j], db'.names[back[j + 1]]) {
      assert Refers(db', q[j + 1], db'.names[q[j + 2]]);
    }
    OldPath(db, name, t, back);
    assert Refers(db', q[m - 1], db'.names[q[m]]);
    FindsItself(db, q[1]);
  }

  lemma UnknownIsUnreached(db: Db, i: nat, name: string)
    requires Closed(db) && i < |db.tables| && name !in db.names
    ensures !Reaches(db, i, name)
  {
    forall p ensures !Leads(db, p, i, name) {
    }
  }

  /** CREATE TABLE needs no search: nothing refers to a name that is not taken. */
  lemma CreateAllowed(db: Db, name: string, defs: seq<ColumnDef>, c: nat)
    requires Closed(db) && Acyclic(db) && db.Valid() && CreateTable(db, name, defs).Ok? && c < |defs| && defs[c].fk.Some?
    ensures ReferenceAllowed(db, name, SchemaOf(defs), c)
  {
    hide Acyclic, Reaches, ChainReaches, KeyColumn;
    assert GoodReference(db, name, defs[c]);
    var j := db.Find(defs[c].fk.value.table).value;
    SearchIsExact(db, j, name);
    UnknownIsUnreached(db, j, name);
  }

  lemma CreateKeepsAcyclic(db: Db, name: string, defs: seq<ColumnDef>)
    requires Closed(db) && Acyclic(db) && db.Valid()
    ensures var r := CreateTable(db, name, defs); r.Ok? ==> Closed(r.value) && Acyclic(r.value)
  {
    hide Acyclic, Closed, ReferenceAllowed, KeyColumn, GoodReference;
    var r := CreateTable(db, name, defs);
    if r.Ok? {
      var schema := SchemaOf(defs);
      forall c | 0 <= c < |schema.fks| && schema.fks[c].Some? ensures ReferenceAllowed(db, name, schema, c) {
        CreateAllowed(db, name, defs, c);
      }
      LoadKeepsAcyclic(db, name, TableState(schema, [], []));
      assert r.value == Put(db, name, TableState(schema, [], []));
    }
  }

  /******* Over every run *******/

  datatype Change = LoadTable(name: string, t: TableState) | MakeTable(name: string, defs: seq<ColumnDef>)

  /** A load that passes its checks, or a CREATE TABLE; anything refused changes nothing. */
  function Changed(db: Db, c: Change): (r: Db)
    requires db.Valid()
  {
    match c
    case LoadTable(name, t) =>
      if t.schema.Valid() && |t.rows| == |t.dead| && (forall r :: 0 <= r < |t.rows| ==> RowFits(t.schema.types, t.rows[r])) && ReferencesAllowed(db, name, t.schema)
      then Put(db, name, t) else db
    case MakeTable(name, defs) =>
      var r := CreateTable(db, name, defs);
      if r.Ok? then r.value else db
  }

  lemma ChangedValid(db: Db, c: Change)
    requires db.Valid()
    ensures Changed(db, c).Valid()
  {
  }

  function CatalogAfter(changes: seq<Change>): (db: Db)
    ensures db.Valid()
  {
    if changes == [] then Db([], [])
    else
      var db := CatalogAfter(changes[..|changes| - 1]);
      ChangedValid(db, changes[|changes| - 1]);
      Changed(db, changes[|changes| - 1])
  }

  /** Every catalog built by loads and CREATE TABLE refers to existing tables and has no cycle. */
  lemma {:induction false} CatalogsStayAcyclic(changes: seq<Change>)
    ensures Closed(CatalogAfter(changes)) && Acyclic(CatalogAfter(changes))
  {
    if changes != [] {
      var db, c := CatalogAfter(changes[..|changes| - 1]), changes[|changes| - 1];
      CatalogsStayAcyclic(changes[..|changes| - 1]);
      match c {
        case LoadTable(name, t) =>
          if ReferencesAllowed(db, name, t.schema) {
            LoadKeepsAcyclic(db, name, t);
          }
        case MakeTable(name, defs) =>
          CreateKeepsAcyclic(db, name, defs);
      }
    }
  }
}
