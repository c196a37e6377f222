/** The reachable API surface of hack/verify-kubernetes-support.go: a walk of the types a Job's
spec and status reach, over a type graph that may be cyclic, and the sorted list it leaves.
 */
module ApiSurface {
  import opened StringOrder

  type TypeId = nat

  datatype Field = Field(name: string, exported: bool, jsonName: string, anonymous: bool, typ: TypeId) {
    /** A field the JSON encoding can show: exported, and not named out by its tag. */
    predicate Listed() {
      exported && jsonName != "-"
    }
  }

  /** Container stands for a pointer, a slice or an array, and MapOf for a map by its values. */
  datatype TypeDef =
    | Container(elem: TypeId)
    | MapOf(elem: TypeId)
    | Struct(pkgPath: string, name: string, fields: seq<Field>)
    | Scalar

  type Universe = map<TypeId, TypeDef>

  datatype Entry = Entry(typ: string, fields: seq<string>)

  const API_PREFIX := "k8s.io/api/"

  // ------------------------------------------------------------ the type graph

  /** Every type named is one of the universe. */
  ghost predicate Closed(u: Universe) {
    && (forall t :: t in u && (u[t].Container? || u[t].MapOf?) ==> u[t].elem in u)
    && (forall t, k :: t in u && u[t].Struct? && 0 <= k < |u[t].fields| ==> u[t].fields[k].typ in u)
  }

  /** Containers nest finitely: a measure that falls from each to what it holds. */
  ghost predicate Nests(u: Universe, depth: TypeId -> nat) {
    forall t :: t in u && (u[t].Container? || u[t].MapOf?) ==> depth(u[t].elem) < depth(t)
  }

  predicate IsApi(u: Universe, t: TypeId) {
    t in u && u[t].Struct? && API_PREFIX <= u[t].pkgPath
  }

  /** The type left when every container around it is taken away. */
  ghost function Base(u: Universe, depth: TypeId -> nat, t: TypeId): (b: TypeId)
    requires Closed(u) && Nests(u, depth) && t in u
    ensures b in u && !u[b].Container? && !u[b].MapOf?
    decreases depth(t)
  {
    if u[t].Container? || u[t].MapOf? then Base(u, depth, u[t].elem) else t
  }

  /** One type of the API holds another in a listed field, under whatever containers. */
  ghost predicate Holds(u: Universe, depth: TypeId -> nat, s: TypeId, t: TypeId)
    requires Closed(u) && Nests(u, depth)
  {
    && IsApi(u, s) && IsApi(u, t)
    && exists k :: 0 <= k < |u[s].fields| && HoldsIn(u, depth, u[s].fields[k], t)
  }

  ghost predicate HoldsIn(u: Universe, depth: TypeId -> nat, f: Field, t: TypeId)
    requires Closed(u) && Nests(u, depth)
  {
    f.Listed() && f.typ in u && Base(u, depth, f.typ) == t
  }

  ghost predicate IsChain(u: Universe, depth: TypeId -> nat, roots: seq<TypeId>, chain: seq<TypeId>)
    requires Closed(u) && Nests(u, depth)
  {
    && chain != []
    && (if |chain| == 1 then
          IsApi(u, chain[0]) && exists r :: r in roots && r in u && Base(u, depth, r) == chain[0]
        else
          && IsChain(u, depth, roots, chain[..|chain| - 1])
          && Holds(u, depth, chain[|chain| - 2], chain[|chain| - 1]))
  }

  ghost predicate Reachable(u: Universe, depth: TypeId -> nat, roots: seq<TypeId>, t: TypeId)
    requires Closed(u) && Nests(u, depth)
  {
    exists chain :: IsChain(u, depth, roots, chain) && chain[|chain| - 1] == t
  }

  lemma ReachableGrows(u: Universe, depth: TypeId -> nat, roots: seq<TypeId>, s: TypeId, t: TypeId)
    requires Closed(u) && Nests(u, depth) && Reachable(u, depth, roots, s) && Holds(u, depth, s, t)
    ensures Reachable(u, depth, roots, t)
  {
    var chain :| IsChain(u, depth, roots, chain) && chain[|chain| - 1] == s;
    var longer := chain + [t];
    assert longer[..|longer| - 1] == chain;
    assert IsChain(u, depth, roots, longer);
  }

  /** A set that holds the roots and what its members hold is all that can be reached. */
  lemma {:induction false} ReachableStays(
    u: Universe, depth: TypeId -> nat, roots: seq<TypeId>, chain: seq<TypeId>, s: set<TypeId>)
    requires Closed(u) && Nests(u, depth) && IsChain(u, depth, roots, chain)
    requires forall r :: r in roots && r in u && IsApi(u, Base(u, depth, r)) ==> Base(u, depth, r) in s
    requires forall x, y :: x in s && Holds(u, depth, x, y) ==> y in s
    ensures chain[|chain| - 1] in s
  {
    if |chain| <= 1 {
    } else {
      ReachableStays(u, depth, roots, chain[..|chain| - 1], s);
    }
  }

  // ------------------------------------------------------------------ entries

  function FieldNames(fields: seq<Field>): seq<string> {
    if fields == [] then []
    else FieldName(fields[0]) + FieldNames(fields[1..])
  }

  function FieldName(f: Field): seq<string> {
    if !f.Listed() then []
    else if f.jsonName == "" then (if f.anonymous then [] else if f.name == "" then [] else [f.name])
    else [f.jsonName]
  }

  function EntryOf(u: Universe, t: TypeId): Entry
    requires IsApi(u, t)
  {
    Entry(u[t].pkgPath + "." + u[t].name, Sort(FieldNames(u[t].fields)))
  }

  lemma {:induction false} FieldNamesGrow(fields: seq<Field>, k: nat)
    requires k < |fields|
    ensures FieldNames(fields[..k + 1]) == FieldNames(fields[..k]) + FieldName(fields[k])
  {
    if k == 0 {
      assert fields[..1] == [fields[0]] && fields[..0] == [];
      assert [fields[0]][1..] == [];
      assert FieldNames([fields[0]]) == FieldName(fields[0]) + [];
    } else {
      hide FieldName;
      FieldNamesGrow(fields[1..], k - 1);
      assert fields[..k + 1][1..] == fields[1..][..k] && fields[..k][1..] == fields[1..][..k - 1];
    }
  }

  // ----------------------------------------------------------------- the walk

  ghost predicate Listing(u: Universe, done: seq<TypeId>, entries: seq<Entry>) {
    && |done| == |entries|
    && (forall i :: 0 <= i < |done| ==> IsApi(u, done[i]) && entries[i] == EntryOf(u, done[i]))
    && (forall i, j :: 0 <= i < j < |done| ==> done[i] != done[j])
  }

  /** What every type whose fields have all been walked holds has been visited. */
  ghost predicate Walked(u: Universe, depth: TypeId -> nat, done: seq<TypeId>, visited: set<TypeId>)
    requires Closed(u) && Nests(u, depth)
  {
    forall i, t :: 0 <= i < |done| && Holds(u, depth, done[i], t) ==> t in visited
  }

  ghost predicate OnlyReachable(u: Universe, depth: TypeId -> nat, roots: seq<TypeId>, visited: set<TypeId>)
    requires Closed(u) && Nests(u, depth)
  {
    forall t :: t in visited ==> IsApi(u, t) && Reachable(u, depth, roots, t)
  }

  class Surface {
    const u: Universe
    ghost const depth: TypeId -> nat
    ghost const roots: seq<TypeId>
    var visited: set<TypeId>
    var entries: seq<Entry>
    ghost var done: seq<TypeId>

    constructor (u: Universe, ghost depth: TypeId -> nat, ghost roots: seq<TypeId>)
      requires Closed(u) && Nests(u, depth)
      ensures this.u == u && this.depth == depth && this.roots == roots
      ensures visited == {} && entries == [] && done == [] && Valid()
    {
      this.u, this.depth, this.roots := u, depth, roots;
      visited, entries, done := {}, [], [];
    }

    ghost predicate Valid()
      reads this
    {
      && Closed(u) && Nests(u, depth)
      && Listing(u, done, entries)
      && (forall i :: 0 <= i < |done| ==> done[i] in visited)
      && Walked(u, depth, done, visited)
      && OnlyReachable(u, depth, roots, visited)
    }

    /** What was visited stays visited, and what is visited anew is listed anew: a type whose
        fields are being walked is visited and not listed. */
    twostate predicate Grows()
      reads this
    {
      && old(visited) <= visited
      && old(done) <= done
      && (forall x :: x in visited && x !in old(visited) ==> x in done)
      && (forall i :: |old(done)| <= i < |done| ==> done[i] !in old(visited))
    }

    method Visit(t: TypeId)
      requires Valid() && t in u
      requires IsApi(u, Base(u, depth, t)) ==> Reachable(u, depth, roots, Base(u, depth, t))
      modifies this
      ensures Valid() && Grows()
      ensures IsApi(u, Base(u, depth, t)) ==> Base(u, depth, t) in visited
      decreases u.Keys - visited, 0, depth(t)
    {
      hide Listing, Walked, OnlyReachable, Reachable, Holds, FieldNames;
      var value := t;
      while u[value].Container?
        invariant value in u && Base(u, depth, value) == Base(u, depth, t) && depth(value) <= depth(t)
        decreases depth(value)
      {
        value := u[value].elem;
      }
      if u[value].MapOf? {
        Visit(u[value].elem);
        return;
      }
      if !u[value].Struct? || !(API_PREFIX <= u[value].pkgPath) {
        return;
      }
      if value in visited {
        return;
      }
      MarkVisited(u, depth, roots, done, visited, value);
      visited := visited + {value};
      var fields := VisitFields(value);
      ListDone(u, depth, done, entries, visited, value);
      entries := entries + [Entry(u[value].pkgPath + "." + u[value].name, Sort(fields))];
      done := done + [value];
    }

    method VisitFields(value: TypeId) returns (fields: seq<string>)
      requires Valid() && IsApi(u, value) && value in visited && value !in done
      modifies this
      ensures Valid() && Grows()
      ensures value !in done
      ensures fields == FieldNames(u[value].fields)
      ensures forall t :: Holds(u, depth, value, t) ==> t in visited
      decreases u.Keys - visited, 1, 0
    {
      hide Listing, Walked, OnlyReachable, Reachable, Holds, FieldNames, Nests, Base;
      fields := [];
      var all := u[value].fields;
      NoFieldNames(all);
      for k := 0 to |all|
        invariant Valid() && Grows() && value !in done
        invariant fields == FieldNames(all[..k])
        invariant forall i, t :: 0 <= i < k && IsApi(u, t) && HoldsIn(u, depth, all[i], t) ==> t in visited
      {
        var field := all[k];
        FieldNamesGrow(all, k);
        if !field.exported {
          continue;
        }
        var jsonName := field.jsonName;
        if jsonName == "-" {
          continue;
        }
        if jsonName == "" && !field.anonymous {
          jsonName := field.name;
        }
        if jsonName != "" {
          fields := fields + [jsonName];
        }
        FieldReaches(u, depth, roots, visited, value, k);
        Visit(field.typ);
      }
      assert all[..|all|] == all;
      AllHeld(u, depth, value, visited);
    }
  }

  lemma NoFieldNames(fields: seq<Field>)
    ensures FieldNames(fields[..0]) == []
  {
  }

  lemma AllHeld(u: Universe, depth: TypeId -> nat, s: TypeId, visited: set<TypeId>)
    requires Closed(u) && Nests(u, depth) && IsApi(u, s)
    requires forall i, t :: 0 <= i < |u[s].fields| && IsApi(u, t) && HoldsIn(u, depth, u[s].fields[i], t) ==> t in visited
    ensures forall t :: Holds(u, depth, s, t) ==> t in visited
  {
  }

  lemma MarkVisited(u: Universe, depth: TypeId -> nat, roots: seq<TypeId>, done: seq<TypeId>, visited: set<TypeId>, t: TypeId)
    requires Closed(u) && Nests(u, depth) && OnlyReachable(u, depth, roots, visited) && Walked(u, depth, done, visited)
    requires IsApi(u, t) && Reachable(u, depth, roots, t)
    ensures OnlyReachable(u, depth, roots, visited + {t}) && Walked(u, depth, done, visited + {t})
  {
    hide Reachable, Holds;
  }

  lemma ListDone(u: Universe, depth: TypeId -> nat, done: seq<TypeId>, entries: seq<Entry>, visited: set<TypeId>, s: TypeId)
    requires Closed(u) && Nests(u, depth) && IsApi(u, s) && s !in done
    requires Listing(u, done, entries) && Walked(u, depth, done, visited)
    requires forall t :: Holds(u, depth, s, t) ==> t in visited
    ensures Listing(u, done + [s], entries + [EntryOf(u, s)]) && Walked(u, depth, done + [s], visited)
  {
    hide Holds, EntryOf;
  }

  lemma FieldReaches(u: Universe, depth: TypeId -> nat, roots: seq<TypeId>, visited: set<TypeId>, s: TypeId, k: nat)
    requires Closed(u) && Nests(u, depth) && OnlyReachable(u, depth, roots, visited)
    requires IsApi(u, s) && s in visited && k < |u[s].fields| && u[s].fields[k].Listed()
    ensures u[s].fields[k].typ in u
    ensures var b := Base(u, depth, u[s].fields[k].typ); IsApi(u, b) ==> Reachable(u, depth, roots, b)
  {
    hide Reachable;
    var b := Base(u, depth, u[s].fields[k].typ);
    if IsApi(u, b) {
      assert HoldsIn(u, depth, u[s].fields[k], b);
      assert Holds(u, depth, s, b);
      ReachableGrows(u, depth, roots, s, b);
    }
  }

  // ------------------------------------------------------------ the sorted list

  function InsertEntry(e: Entry, es: seq<Entry>): seq<Entry> {
    if es == [] || Le(e.typ, es[0].typ) then [e] + es else [es[0]] + InsertEntry(e, es[1..])
  }

  function SortEntries(es: seq<Entry>): seq<Entry> {
    if es == [] then [] else InsertEntry(es[0], SortEntries(es[1..]))
  }

  function TypeName(u: Universe, t: TypeId): string
    requires IsApi(u, t)
  {
    u[t].pkgPath + "." + u[t].name
  }

  predicate AllApi(u: Universe, ids: seq<TypeId>) {
    forall i :: 0 <= i < |ids| ==> IsApi(u, ids[i])
  }

  function EntriesOf(u: Universe, ids: seq<TypeId>): (es: seq<Entry>)
    requires AllApi(u, ids)
    ensures |es| == |ids| && forall i :: 0 <= i < |ids| ==> es[i] == EntryOf(u, ids[i])
  {
    if ids == [] then [] else [EntryOf(u, ids[0])] + EntriesOf(u, ids[1..])
  }

  ghost function InsertId(u: Universe, t: TypeId, ids: seq<TypeId>): (r: seq<TypeId>)
    requires IsApi(u, t) && AllApi(u, ids)
    ensures AllApi(u, r) && multiset(r) == multiset(ids) + multiset{t}
  {
    if ids == [] || Le(TypeName(u, t), TypeName(u, ids[0])) then [t] + ids
    else
      assert ids == [ids[0]] + ids[1..];
      [ids[0]] + InsertId(u, t, ids[1..])
  }

  ghost function SortIds(u: Universe, ids: seq<TypeId>): (r: seq<TypeId>)
    requires AllApi(u, ids)
    ensures AllApi(u, r) && multiset(r) == multiset(ids)
  {
    if ids == [] then []
    else
      assert ids == [ids[0]] + ids[1..];
      InsertId(u, ids[0], SortIds(u, ids[1..]))
  }

  /** Each type's name is at or before every later one's. */
  ghost predicate InOrder(u: Universe, ids: seq<TypeId>)
    requires AllApi(u, ids)
  {
    ids == [] || ((forall t :: t in ids[1..] ==> IsApi(u, t) && Le(TypeName(u, ids[0]), TypeName(u, t))) && InOrder(u, ids[1..]))
  }

  lemma {:induction false} InsertIdInOrder(u: Universe, t: TypeId, ids: seq<TypeId>)
    requires IsApi(u, t) && AllApi(u, ids) && InOrder(u, ids)
    ensures InOrder(u, InsertId(u, t, ids))
  {
    hide TypeName;
    if ids == [] {
    } else {
      LeTotal(TypeName(u, t), TypeName(u, ids[0]));
      if Le(TypeName(u, t), TypeName(u, ids[0])) {
        forall s | s in ids ensures IsApi(u, s) && Le(TypeName(u, t), TypeName(u, s)) {
          if s != ids[0] {
            assert s in ids[1..];
            LeTransitive(TypeName(u, t), TypeName(u, ids[0]), TypeName(u, s));
          }
        }
        assert ([t] + ids)[1..] == ids;
      } else {
        InsertIdInOrder(u, t, ids[1..]);
        var rest := InsertId(u, t, ids[1..]);
        forall s | s in rest ensures IsApi(u, s) && Le(TypeName(u, ids[0]), TypeName(u, s)) {
          assert s in multiset(rest);
          assert s == t || s in ids[1..];
        }
        assert ([ids[0]] + rest)[1..] == rest;
      }
    }
  }

  lemma {:induction false} SortIdsInOrder(u: Universe, ids: seq<TypeId>)
    requires AllApi(u, ids)
    ensures InOrder(u, SortIds(u, ids))
  {
    if ids == [] {
    } else {
      SortIdsInOrder(u, ids[1..]);
      InsertIdInOrder(u, ids[0], SortIds(u, ids[1..]));
    }
  }

  lemma {:induction false} InsertEntryOf(u: Universe, t: TypeId, ids: seq<TypeId>)
    requires IsApi(u, t) && AllApi(u, ids)
    ensures InsertEntry(EntryOf(u, t), EntriesOf(u, ids)) == EntriesOf(u, InsertId(u, t, ids))
  {
    hide Le, Sort;
    if ids != [] && !Le(TypeName(u, t), TypeName(u, ids[0])) {
      InsertEntryOf(u, t, ids[1..]);
      assert EntriesOf(u, ids)[1..] == EntriesOf(u, ids[1..]);
      assert ([ids[0]] + InsertId(u, t, ids[1..]))[1..] == InsertId(u, t, ids[1..]);
    } else {
      assert ([t] + ids)[1..] == ids;
    }
  }

  /** Sorting the entries is sorting the types they stand for. */
  lemma {:induction false} SortEntriesOf(u: Universe, ids: seq<TypeId>)
    requires AllApi(u, ids)
    ensures SortEntries(EntriesOf(u, ids)) == EntriesOf(u, SortIds(u, ids))
  {
    if ids == [] {
    } else {
      assert EntriesOf(u, ids)[1..] == EntriesOf(u, ids[1..]);
      SortEntriesOf(u, ids[1..]);
      InsertEntryOf(u, ids[0], SortIds(u, ids[1..]));
    }
  }

  ghost predicate Distinct(ids: seq<TypeId>) {
    forall i, j :: 0 <= i < j < |ids| ==> ids[i] != ids[j]
  }

  /** The surface: every type of the API that the roots reach, once, in the order of their names. */
  ghost predicate IsSurface(u: Universe, depth: TypeId -> nat, roots: seq<TypeId>, ids: seq<TypeId>)
    requires Closed(u) && Nests(u, depth)
  {
    && AllApi(u, ids) && InOrder(u, ids) && Distinct(ids)
    && AreReachable(u, depth, roots, ids)
  }

  /** The entries of the surface, as they are listed for the digest. */
  ghost predicate ListsSurface(u: Universe, depth: TypeId -> nat, roots: seq<TypeId>, entries: seq<Entry>)
    requires Closed(u) && Nests(u, depth)
  {
    exists ids :: IsSurface(u, depth, roots, ids) && entries == EntriesOf(u, ids)
  }

  /** The entries of everything reachable, each once, in the order they are found. */
  ghost predicate FindsSurface(u: Universe, depth: TypeId -> nat, roots: seq<TypeId>, entries: seq<Entry>)
    requires Closed(u) && Nests(u, depth)
  {
    exists ids :: Listing(u, ids, entries) && AreReachable(u, depth, roots, ids)
  }

  ghost predicate AreReachable(u: Universe, depth: TypeId -> nat, roots: seq<TypeId>, ids: seq<TypeId>)
    requires Closed(u) && Nests(u, depth)
  {
    forall t :: t in ids <==> Reachable(u, depth, roots, t)
  }

  lemma {:induction false} DistinctByCount(ids: seq<TypeId>)
    ensures Distinct(ids) <==> forall t :: t in ids ==> multiset(ids)[t] == 1
  {
    if ids == [] {
    } else {
      var rest := ids[1..];
      assert ids == [ids[0]] + rest;
      DistinctByCount(rest);
      if Distinct(ids) {
        assert Distinct(rest) && ids[0] !in rest;
        assert ids[0] !in multiset(rest);
      }
      if forall t :: t in ids ==> multiset(ids)[t] == 1 {
        assert multiset(ids)[ids[0]] == 1;
        assert ids[0] !in multiset(rest);
        assert ids[0] !in rest;
        forall t | t in rest ensures multiset(rest)[t] == 1 {
          assert t in ids && multiset(ids)[t] == 1;
        }
        assert forall i :: 0 < i < |ids| ==> ids[i] == rest[i - 1];
      }
    }
  }

  /** The walk from every root: the entries as they are found. */
  method CollectEntries(u: Universe, ghost depth: TypeId -> nat, roots: seq<TypeId>)
    returns (entries: seq<Entry>)
    requires Closed(u) && Nests(u, depth)
    requires forall i :: 0 <= i < |roots| ==> roots[i] in u
    ensures FindsSurface(u, depth, roots, entries)
  {
    hide Reachable, Holds, Base, Listing, Walked, OnlyReachable, Nests, Closed;
    var surface := new Surface(u, depth, roots);
    for k := 0 to |roots|
      invariant surface.u == u && surface.depth == depth && surface.roots == roots
      invariant surface.Valid() && forall t :: t in surface.visited ==> t in surface.done
      invariant forall i :: 0 <= i < k && IsApi(u, Base(u, depth, roots[i])) ==> Base(u, depth, roots[i]) in surface.visited
    {
      RootReaches(u, depth, roots, k);
      ghost var before := surface.done;
      surface.Visit(roots[k]);
      assert forall t :: t in before ==> t in surface.done;
    }
    AllReached(u, depth, roots, surface.done, surface.visited);
    entries := surface.entries;
    assert Listing(u, surface.done, entries) && AreReachable(u, depth, roots, surface.done);
  }

  lemma ListingIsEntries(u: Universe, done: seq<TypeId>, entries: seq<Entry>)
    requires Listing(u, done, entries)
    ensures AllApi(u, done) && Distinct(done) && entries == EntriesOf(u, done)
  {
  }

  /** The entries behind the digest. */
  method ControllerJobAPISurface(u: Universe, ghost depth: TypeId -> nat, roots: seq<TypeId>)
    returns (entries: seq<Entry>)
    requires Closed(u) && Nests(u, depth)
    requires forall i :: 0 <= i < |roots| ==> roots[i] in u
    ensures ListsSurface(u, depth, roots, entries)
  {
    hide Listing, AreReachable, Closed, Nests, ListsSurface, SortEntries;
    var found := CollectEntries(u, depth, roots);
    ghost var done :| Listing(u, done, found) && AreReachable(u, depth, roots, done);
    SortedSurface(u, depth, roots, done, found);
    entries := SortEntries(found);
  }

  lemma SortedSurface(u: Universe, depth: TypeId -> nat, roots: seq<TypeId>, done: seq<TypeId>, found: seq<Entry>)
    requires Closed(u) && Nests(u, depth)
    requires Listing(u, done, found) && AreReachable(u, depth, roots, done)
    ensures ListsSurface(u, depth, roots, SortEntries(found))
  {
    hide Reachable, InOrder, Listing, Distinct, AllApi, Closed, Nests, SortEntries, SortIds;
    ListingIsEntries(u, done, found);
    SortEntriesOf(u, done);
    SortIdsInOrder(u, done);
    var ids := SortIds(u, done);
    SameIds(done, ids);
    assert IsSurface(u, depth, roots, ids) && SortEntries(found) == EntriesOf(u, ids);
  }

  lemma SameIds(a: seq<TypeId>, b: seq<TypeId>)
    requires multiset(a) == multiset(b) && Distinct(a)
    ensures Distinct(b) && forall t :: t in a <==> t in b
  {
    DistinctByCount(a);
    DistinctByCount(b);
    forall t ensures t in a <==> t in b {
      assert t in a <==> t in multiset(a);
      assert t in b <==> t in multiset(b);
    }
  }

  lemma RootReaches(u: Universe, depth: TypeId -> nat, roots: seq<TypeId>, k: nat)
    requires Closed(u) && Nests(u, depth) && k < |roots| && roots[k] in u
    ensures IsApi(u, Base(u, depth, roots[k])) ==> Reachable(u, depth, roots, Base(u, depth, roots[k]))
  {
    var b := Base(u, depth, roots[k]);
    if IsApi(u, b) {
      assert IsChain(u, depth, roots, [b]);
    }
  }

  lemma AllReached(u: Universe, depth: TypeId -> nat, roots: seq<TypeId>, done: seq<TypeId>, visited: set<TypeId>)
    requires Closed(u) && Nests(u, depth)
    requires Walked(u, depth, done, visited) && OnlyReachable(u, depth, roots, visited)
    requires forall t :: t in visited <==> t in done
    requires forall i :: 0 <= i < |roots| ==> roots[i] in u
    requires forall i :: 0 <= i < |roots| && IsApi(u, Base(u, depth, roots[i])) ==> Base(u, depth, roots[i]) in visited
    ensures forall t :: t in done <==> Reachable(u, depth, roots, t)
  {
    hide Holds, Base;
    forall t | Reachable(u, depth, roots, t) ensures t in done {
      var chain :| IsChain(u, depth, roots, chain) && chain[|chain| - 1] == t;
      ReachableStays(u, depth, roots, chain, visited);
    }
  }

  // ------------------------------------------------- the list ignores the order

  predicate SameUpToFieldOrder(a: TypeDef, b: TypeDef) {
    if a.Struct? && b.Struct? then
      a.pkgPath == b.pkgPath && a.name == b.name && multiset(a.fields) == multiset(b.fields)
    else a == b
  }

  ghost predicate Reordered(u: Universe, v: Universe) {
    u.Keys == v.Keys && forall t :: t in u ==> SameUpToFieldOrder(u[t], v[t])
  }

  ghost predicate UniqueNames(u: Universe) {
    forall s, t :: IsApi(u, s) && IsApi(u, t) && TypeName(u, s) == TypeName(u, t) ==> s == t
  }

  lemma {:induction false} FieldNamesAppend(a: seq<Field>, b: seq<Field>)
    ensures FieldNames(a + b) == FieldNames(a) + FieldNames(b)
  {
    if a == [] {
      assert a + b == b;
    } else {
      assert (a + b)[1..] == a[1..] + b;
      FieldNamesAppend(a[1..], b);
    }
  }

  lemma {:induction false} Without(s: seq<Field>, k: nat)
    requires k < |s|
    ensures s == s[..k] + ([s[k]] + s[k + 1..])
    ensures multiset(s) == multiset(s[..k] + s[k + 1..]) + multiset{s[k]}
  {
    var before, after := s[..k], s[k + 1..];
    assert s == before + ([s[k]] + after);
    assert multiset(before + ([s[k]] + after)) == multiset(before) + (multiset{s[k]} + multiset(after));
    assert multiset(before + after) == multiset(before) + multiset(after);
  }

  lemma {:induction false} RemoveOne(a: seq<Field>, b: seq<Field>, k: nat)
    requires multiset(a) == multiset(b) && a != [] && k < |b| && b[k] == a[0]
    ensures b == b[..k] + ([b[k]] + b[k + 1..])
    ensures multiset(b[..k] + b[k + 1..]) == multiset(a[1..])
  {
    Without(a, 0);
    Without(b, k);
    assert a[..0] + a[1..] == a[1..];
    assert multiset(a[1..]) == multiset(a) - multiset{a[0]};
    assert multiset(b[..k] + b[k + 1..]) == multiset(b) - multiset{b[k]};
  }

  lemma {:induction false} FieldNamesReordered(a: seq<Field>, b: seq<Field>)
    requires multiset(a) == multiset(b)
    ensures multiset(FieldNames(a)) == multiset(FieldNames(b))
  {
    assert |multiset(a)| == |a| && |multiset(b)| == |b|;
    if a == [] {
    } else {
      assert a == [a[0]] + a[1..];
      assert a[0] in multiset(b);
      var k :| 0 <= k < |b| && b[k] == a[0];
      var rest := b[..k] + b[k + 1..];
      RemoveOne(a, b, k);
      FieldNamesReordered(a[1..], rest);
      FieldNamesAppend([a[0]], a[1..]);
      FieldNamesAppend(b[..k], [b[k]] + b[k + 1..]);
      FieldNamesAppend([b[k]], b[k + 1..]);
      FieldNamesAppend(b[..k], b[k + 1..]);
    }
  }

  lemma EntryReordered(u: Universe, v: Universe, t: TypeId)
    requires Reordered(u, v) && IsApi(u, t)
    ensures IsApi(v, t) && EntryOf(u, t) == EntryOf(v, t) && TypeName(u, t) == TypeName(v, t)
  {
    hide FieldNames, Sort;
    assert t in u.Keys;
    FieldNamesReordered(u[t].fields, v[t].fields);
    SortIgnoresOrder(FieldNames(u[t].fields), FieldNames(v[t].fields));
  }

  lemma {:induction false} BaseReordered(u: Universe, v: Universe, depth: TypeId -> nat, t: TypeId)
    requires Closed(u) && Nests(u, depth) && Closed(v) && Nests(v, depth) && Reordered(u, v) && t in u
    ensures t in v && Base(u, depth, t) == Base(v, depth, t)
    decreases depth(t)
  {
    assert t in u.Keys && SameUpToFieldOrder(u[t], v[t]);
    if !u[t].Container? && !u[t].MapOf? {
    } else {
      BaseReordered(u, v, depth, u[t].elem);
    }
  }

  lemma HoldsReordered(u: Universe, v: Universe, depth: TypeId -> nat, s: TypeId, t: TypeId)
    requires Closed(u) && Nests(u, depth) && Closed(v) && Nests(v, depth) && Reordered(u, v)
    requires Holds(u, depth, s, t)
    ensures Holds(v, depth, s, t)
  {
    hide Base;
    EntryReordered(u, v, s);
    EntryReordered(u, v, t);
    var k :| 0 <= k < |u[s].fields| && HoldsIn(u, depth, u[s].fields[k], t);
    var f := u[s].fields[k];
    assert s in u.Keys && f in multiset(u[s].fields);
    assert f in multiset(v[s].fields);
    var l :| 0 <= l < |v[s].fields| && v[s].fields[l] == f;
    BaseReordered(u, v, depth, f.typ);
    assert HoldsIn(v, depth, v[s].fields[l], t);
  }

  lemma {:induction false} ChainReordered(
    u: Universe, v: Universe, depth: TypeId -> nat, roots: seq<TypeId>, roots': seq<TypeId>, chain: seq<TypeId>)
    requires Closed(u) && Nests(u, depth) && Closed(v) && Nests(v, depth) && Reordered(u, v)
    requires forall r :: r in roots ==> r in roots'
    requires IsChain(u, depth, roots, chain)
    ensures IsChain(v, depth, roots', chain)
  {
    hide Base, Holds;
    if |chain| == 1 {
      var r :| r in roots && r in u && Base(u, depth, r) == chain[0];
      EntryReordered(u, v, chain[0]);
      BaseReordered(u, v, depth, r);
    } else {
      ChainReordered(u, v, depth, roots, roots', chain[..|chain| - 1]);
      HoldsReordered(u, v, depth, chain[|chain| - 2], chain[|chain| - 1]);
    }
  }

  lemma ReachableReordered(
    u: Universe, v: Universe, depth: TypeId -> nat, roots: seq<TypeId>, roots': seq<TypeId>, t: TypeId)
    requires Closed(u) && Nests(u, depth) && Closed(v) && Nests(v, depth) && Reordered(u, v)
    requires forall r :: r in roots ==> r in roots'
    requires Reachable(u, depth, roots, t)
    ensures Reachable(v, depth, roots', t)
  {
    var chain :| IsChain(u, depth, roots, chain) && chain[|chain| - 1] == t;
    ChainReordered(u, v, depth, roots, roots', chain);
  }

  lemma HeadIsLeast(u: Universe, v: Universe, ids: seq<TypeId>, ids': seq<TypeId>)
    requires Reordered(u, v) && UniqueNames(u) && ids != [] && ids' != []
    requires AllApi(u, ids) && InOrder(u, ids) && AllApi(v, ids') && InOrder(v, ids')
    requires ids[0] in ids' && ids'[0] in ids
    ensures ids[0] == ids'[0]
  {
    hide TypeName;
    EntryReordered(u, v, ids[0]);
    EntryReordered(u, v, ids'[0]);
    if ids[0] != ids'[0] {
      assert ids[0] in ids'[1..] && ids'[0] in ids[1..];
      LeAntisymmetric(TypeName(u, ids[0]), TypeName(u, ids'[0]));
    }
  }

  /** Types in the order of their names, once each, are determined by which they are. */
  lemma {:induction false} OrderIsUnique(u: Universe, v: Universe, ids: seq<TypeId>, ids': seq<TypeId>)
    requires Reordered(u, v) && UniqueNames(u)
    requires AllApi(u, ids) && InOrder(u, ids) && Distinct(ids)
    requires AllApi(v, ids') && InOrder(v, ids') && Distinct(ids')
    requires forall t :: t in ids <==> t in ids'
    ensures ids == ids'
  {
    hide UniqueNames, Reordered;
    assert ids' != [] ==> ids'[0] in ids';
    if ids == [] {
    } else {
      assert ids[0] in ids;
      HeadIsLeast(u, v, ids, ids');
      forall t ensures t in ids[1..] <==> t in ids'[1..] {
        TailOf(ids, t);
        TailOf(ids', t);
      }
      OrderIsUnique(u, v, ids[1..], ids'[1..]);
      assert ids == [ids[0]] + ids[1..] && ids' == [ids'[0]] + ids'[1..];
    }
  }

  lemma TailOf(ids: seq<TypeId>, t: TypeId)
    requires ids != [] && Distinct(ids)
    ensures t in ids[1..] <==> t in ids && t != ids[0]
  {
  }

  /** The ids of the two listings are the same. */
  lemma SameSurface(
    u: Universe, v: Universe, depth: TypeId -> nat, roots: seq<TypeId>, roots': seq<TypeId>,
    ids: seq<TypeId>, ids': seq<TypeId>)
    requires Closed(u) && Nests(u, depth) && Closed(v) && Nests(v, depth)
    requires Reordered(u, v) && UniqueNames(u) && multiset(roots) == multiset(roots')
    requires IsSurface(u, depth, roots, ids) && IsSurface(v, depth, roots', ids')
    ensures EntriesOf(u, ids) == EntriesOf(v, ids')
  {
    hide Reachable, InOrder, UniqueNames, Nests, Closed;
    forall r ensures r in roots <==> r in roots' {
      assert r in roots <==> r in multiset(roots);
      assert r in roots' <==> r in multiset(roots');
    }
    assert Reordered(v, u);
    forall t ensures t in ids <==> t in ids' {
      if t in ids {
        ReachableReordered(u, v, depth, roots, roots', t);
      }
      if t in ids' {
        ReachableReordered(v, u, depth, roots', roots, t);
      }
    }
    OrderIsUnique(u, v, ids, ids');
    forall i | 0 <= i < |ids| ensures EntriesOf(u, ids)[i] == EntriesOf(v, ids')[i] {
      EntryReordered(u, v, ids[i]);
    }
  }

  /** The list does not depend on the order of the roots or of any struct's fields. */
  lemma SurfaceIgnoresOrder(
    u: Universe, v: Universe, depth: TypeId -> nat, roots: seq<TypeId>, roots': seq<TypeId>,
    entries: seq<Entry>, entries': seq<Entry>)
    requires Closed(u) && Nests(u, depth) && Closed(v) && Nests(v, depth)
    requires Reordered(u, v) && UniqueNames(u) && multiset(roots) == multiset(roots')
    requires ListsSurface(u, depth, roots, entries) && ListsSurface(v, depth, roots', entries')
    ensures entries == entries'
  {
    hide AllApi, InOrder, Distinct, AreReachable, Reordered, UniqueNames, Closed, Nests;
    var ids :| IsSurface(u, depth, roots, ids) && entries == EntriesOf(u, ids);
    var ids' :| IsSurface(v, depth, roots', ids') && entries' == EntriesOf(v, ids');
    SameSurface(u, v, depth, roots, roots', ids, ids');
  }

  // ------------------------------------------------------------- what an entry lists

  /** The name a field is serialised under: its tag's, or its own when the tag has none and the field
      is not embedded. */
  ghost predicate IsSerialisedAs(f: Field, name: string) {
    && f.exported && f.jsonName != "-" && name != ""
    && (name == f.jsonName || (f.jsonName == "" && !f.anonymous && name == f.name))
  }

  lemma FieldNameIsSerialised(f: Field)
    ensures |FieldName(f)| <= 1 && forall name :: name in FieldName(f) <==> IsSerialisedAs(f, name)
  {
  }

  /** How often a name is listed: once for each field that is serialised under it. */
  ghost function Times(fields: seq<Field>, name: string): nat {
    if fields == [] then 0 else (if IsSerialisedAs(fields[0], name) then 1 else 0) + Times(fields[1..], name)
  }

  lemma {:induction false} FieldNamesCount(fields: seq<Field>, name: string)
    ensures multiset(FieldNames(fields))[name] == Times(fields, name)
  {
    hide FieldName, IsSerialisedAs;
    if fields == [] {
    } else {
      FieldNamesCount(fields[1..], name);
      FieldNameIsSerialised(fields[0]);
      var first := FieldName(fields[0]);
      assert |first| == 1 ==> first == [first[0]];
    }
  }

  /** An entry: the full name of its type, and in order of their names the fields it is serialised
      with, each as often as it is. */
  lemma EntryListsFields(u: Universe, t: TypeId, name: string)
    requires IsApi(u, t)
    ensures var e := EntryOf(u, t);
      && e.typ == u[t].pkgPath + "." + u[t].name && API_PREFIX <= e.typ
      && Sorted(e.fields) && multiset(e.fields)[name] == Times(u[t].fields, name)
  {
    FieldNamesCount(u[t].fields, name);
    SortSorts(FieldNames(u[t].fields));
  }
}
