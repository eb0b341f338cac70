/**
 * The role table of Sphinx's Python domain: which object kinds a
 * cross-reference role ("mod", "meth", "obj", ...) may denote, obtained by
 * inverting the kind-to-roles table while keeping its declaration order.
 */
module Roles {
  /** One entry of the object-type table: a kind and the roles that may refer to it. */
  datatype ObjType = ObjType(kind: string, roles: seq<string>)

  /** `Resolver.object_types`: the Python domain's table of Sphinx, in its declaration order. */
  const ObjectTypes: seq<ObjType> := [
    ObjType("function", ["func", "obj"]),
    ObjType("data", ["data", "obj"]),
    ObjType("class", ["class", "exc", "obj"]),
    ObjType("exception", ["exc", "class", "obj"]),
    ObjType("method", ["meth", "obj"]),
    ObjType("classmethod", ["meth", "obj"]),
    ObjType("staticmethod", ["meth", "obj"]),
    ObjType("attribute", ["attr", "obj"]),
    ObjType("property", ["attr", "_prop", "obj"]),
    ObjType("type", ["type", "class", "obj"]),
    ObjType("module", ["mod", "obj"])
  ]

  /** The kinds a role gains from an entry's roles from the `j`-th on: the
      entry's kind once for each time the role is listed there. */
  function ListingsFrom(kind: string, roles: seq<string>, j: nat, role: string): seq<string>
    decreases |roles| - j
  {
    if j >= |roles| then []
    else if roles[j] == role then [kind] + ListingsFrom(kind, roles, j + 1, role)
    else ListingsFrom(kind, roles, j + 1, role)
  }

  /** The kinds `role` may denote according to the entries of `table` from the `i`-th on, in table order. */
  function KindsFrom(table: seq<ObjType>, i: nat, role: string): seq<string>
    decreases |table| - i
  {
    if i >= |table| then []
    else ListingsFrom(table[i].kind, table[i].roles, 0, role) + KindsFrom(table, i + 1, role)
  }

  /** The kinds `role` may denote according to the whole of `table`. */
  function KindsFor(table: seq<ObjType>, role: string): seq<string> {
    KindsFrom(table, 0, role)
  }

  /** The role-to-kinds table the resolver uses. */
  function CandidateKinds(role: string): seq<string> {
    KindsFrom(ObjectTypes, 0, role)
  }

  lemma {:induction false} ListingsFromMembers(kind: string, roles: seq<string>, j: nat, role: string, k: string)
    requires j <= |roles|
    ensures k in ListingsFrom(kind, roles, j, role) <==> k == kind && role in roles[j..]
    decreases |roles| - j
  {
    if j < |roles| {
      ListingsFromMembers(kind, roles, j + 1, role, k);
      assert roles[j..] == [roles[j]] + roles[j + 1..];
    }
  }

  /** The inversion is exact: a kind is a candidate for a role iff some
      entry of that kind lists the role. */
  lemma {:induction false} KindsFromMembers(table: seq<ObjType>, i: nat, role: string, kind: string)
    requires i <= |table|
    ensures kind in KindsFrom(table, i, role)
            <==> exists e :: i <= e < |table| && table[e].kind == kind && role in table[e].roles
    decreases |table| - i
  {
    if i < |table| {
      KindsFromMembers(table, i + 1, role, kind);
      ListingsFromMembers(table[i].kind, table[i].roles, 0, role, kind);
      assert table[i].roles[0..] == table[i].roles;
      assert KindsFrom(table, i, role)
          == ListingsFrom(table[i].kind, table[i].roles, 0, role) + KindsFrom(table, i + 1, role);
    }
  }

  /** A candidate kind is one the table declares for the role. */
  lemma CandidateKindsMembers(role: string, kind: string)
    ensures kind in CandidateKinds(role)
            <==> exists e :: 0 <= e < |ObjectTypes| && ObjectTypes[e].kind == kind && role in ObjectTypes[e].roles
  {
    KindsFromMembers(ObjectTypes, 0, role, kind);
  }

  /** Reading a `defaultdict(list)`: a missing key reads as the empty list. */
  function Lookup(m: map<string, seq<string>>, role: string): seq<string> {
    if role in m then m[role] else []
  }

  /** Every role the inverted table holds has at least one kind. */
  predicate NoEmptyLists(m: map<string, seq<string>>) {
    forall role :: role in m ==> m[role] != []
  }

  /** One step of the inner loop for one role: appending `kind` to the list
      of `roles[j]` moves one listing from the part still to do to the part done. */
  lemma AppendStep(done: seq<string>, kind: string, roles: seq<string>, j: nat, role: string, later: seq<string>)
    requires j < |roles|
    ensures (if roles[j] == role then done + [kind] else done) + (ListingsFrom(kind, roles, j + 1, role) + later)
            == done + (ListingsFrom(kind, roles, j, role) + later)
  {
    var rest := ListingsFrom(kind, roles, j + 1, role) + later;
    if roles[j] == role {
      assert ListingsFrom(kind, roles, j, role) + later == [kind] + rest;
      assert (done + [kind]) + rest == done + ([kind] + rest);
    }
  }

  lemma UpdateKeepsNoEmptyLists(m: map<string, seq<string>>, role: string, kinds: seq<string>)
    requires NoEmptyLists(m) && kinds != []
    ensures NoEmptyLists(m[role := kinds])
  {
  }

  /**
   * `reftype_to_objtype`: the object-type table inverted by two nested
   * loops that append each kind to the list of each of its roles, so every
   * role's kinds keep the table's order.
   */
  method BuildReftypeToObjtype(table: seq<ObjType>) returns (m: map<string, seq<string>>)
    ensures forall role :: Lookup(m, role) == KindsFor(table, role)
    ensures NoEmptyLists(m)
  {
    m := map[];
    var i := 0;
    while i < |table|
      invariant 0 <= i <= |table|
      invariant forall role :: Lookup(m, role) + KindsFrom(table, i, role) == KindsFor(table, role)
      invariant NoEmptyLists(m)
    {
      var entry := table[i];
      var j := 0;
      forall role
        ensures Lookup(m, role) + (ListingsFrom(entry.kind, entry.roles, 0, role)
                                   + KindsFrom(table, i + 1, role)) == KindsFor(table, role)
      {
        assert KindsFrom(table, i, role)
            == ListingsFrom(entry.kind, entry.roles, 0, role) + KindsFrom(table, i + 1, role);
      }
      while j < |entry.roles|
        invariant 0 <= j <= |entry.roles|
        invariant forall role :: Lookup(m, role) + (ListingsFrom(entry.kind, entry.roles, j, role)
                                                   + KindsFrom(table, i + 1, role)) == KindsFor(table, role)
        invariant NoEmptyLists(m)
      {
        var listed := entry.roles[j];
        var m' := m[listed := Lookup(m, listed) + [entry.kind]];
        forall role
          ensures Lookup(m', role) + (ListingsFrom(entry.kind, entry.roles, j + 1, role)
                                      + KindsFrom(table, i + 1, role)) == KindsFor(table, role)
        {
          AppendStep(Lookup(m, role), entry.kind, entry.roles, j, role, KindsFrom(table, i + 1, role));
        }
        UpdateKeepsNoEmptyLists(m, listed, Lookup(m, listed) + [entry.kind]);
        m := m';
        j := j + 1;
      }
      forall role ensures Lookup(m, role) + KindsFrom(table, i + 1, role) == KindsFor(table, role) {
        assert ListingsFrom(entry.kind, entry.roles, j, role) == [];
      }
      i := i + 1;
    }
    assert forall role :: KindsFrom(table, i, role) == [];
  }

  /* The inverted table, role by role: each role's kinds in declaration
     order; a role no entry lists (`ref`) has none. */

  lemma FuncRoleKinds()
    ensures CandidateKinds("func") == ["function"]
  {
  }

  lemma DataRoleKinds()
    ensures CandidateKinds("data") == ["data"]
  {
  }

  lemma ModRoleKinds()
    ensures CandidateKinds("mod") == ["module"]
  {
  }

  lemma AttrRoleKinds()
    ensures CandidateKinds("attr") == ["attribute", "property"]
  {
  }

  lemma PropRoleKinds()
    ensures CandidateKinds("_prop") == ["property"]
  {
  }

  lemma TypeRoleKinds()
    ensures CandidateKinds("type") == ["type"]
  {
  }

  lemma MethRoleKinds()
    ensures CandidateKinds("meth") == ["method", "classmethod", "staticmethod"]
  {
  }

  lemma ClassRoleKinds()
    ensures CandidateKinds("class") == ["class", "exception", "type"]
  {
  }

  lemma ExcRoleKinds()
    ensures CandidateKinds("exc") == ["class", "exception"]
  {
  }

  /** The second half of the table for `obj`. */
  lemma ObjRoleKindsFromSix()
    ensures KindsFrom(ObjectTypes, 6, "obj") == ["staticmethod", "attribute", "property", "type", "module"]
  {
  }

  lemma ObjRoleKinds()
    ensures CandidateKinds("obj") == ["function", "data", "class", "exception", "method", "classmethod", "staticmethod", "attribute", "property", "type", "module"]
  {
    ObjRoleKindsFromSix();
  }

  lemma RefRoleKinds()
    ensures CandidateKinds("ref") == []
  {
  }
}
