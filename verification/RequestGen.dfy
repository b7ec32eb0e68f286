/**
 Template instantiation in the request generator (base/src/requestgen.cpp, main): a list of types grows while it is
 traversed, until every role that an object requests exists for every type it applies to.
 */
module RequestGen {
  import opened Sequences

  /** The types that an object of a base type with a role requests. */
  type Requests = (string, string) -> seq<string>

  // ----- Types and roles -----

  function Dot(s: string): (n: nat)
    ensures n <= |s| && (n < |s| ==> s[n] == '.')
  {
    if s == "" || s[0] == '.' then 0 else 1 + Dot(s[1..])
  }

  function Base(s: string): string {
    s[..Dot(s)]
  }

  /** What follows the first dot; empty if there is none. */
  function Role(s: string): string {
    if Dot(s) < |s| then s[Dot(s) + 1..] else ""
  }

  predicate RoleFree(s: string) {
    Dot(s) == |s|
  }

  function Instance(base: string, role: string): string {
    base + "." + role
  }

  lemma {:induction false} DotOfInstance(base: string, role: string)
    requires RoleFree(base)
    ensures Dot(Instance(base, role)) == |base| && !RoleFree(Instance(base, role))
  {
    if base != "" {
      assert Instance(base, role)[1..] == Instance(base[1..], role);
      DotOfInstance(base[1..], role);
    }
  }

  /** An instance splits into the type and the role it was made of. */
  lemma InstanceSplits(base: string, role: string)
    requires RoleFree(base)
    ensures Base(Instance(base, role)) == base && Role(Instance(base, role)) == role
  {
    DotOfInstance(base, role);
    assert Instance(base, role)[|base| + 1..] == role;
  }

  // ----- What the generator has to produce -----

  /** If the requested type has a role, all base types with its prefix exist in that role. */
  ghost predicate Given(t: string, objects: set<string>, bases: seq<string>) {
    Role(t) != "" ==> forall b :: b in bases && Base(t) <= b ==> Instance(b, Role(t)) in objects
  }

  /** Every role that object o requests exists for all base types with the requested prefix. */
  ghost predicate Satisfied(o: string, objects: set<string>, bases: seq<string>, requests: Requests) {
    forall t :: t in requests(Base(o), Role(o)) ==> Given(t, objects, bases)
  }

  /** The base types are there, and all requests are satisfied. */
  ghost predicate Complete(objects: set<string>, bases: seq<string>, requests: Requests) {
    (forall b :: b in bases ==> b in objects) && forall o :: o in objects ==> Satisfied(o, objects, bases, requests)
  }

  /** A finite set of roles suffices. */
  ghost predicate FiniteRoles(roles: set<string>, bases: seq<string>, requests: Requests) {
    forall b, r, t :: b in bases && (r == "" || r in roles) && t in requests(b, r) ==> Role(t) == "" || Role(t) in roles
  }

  predicate AllRoleFree(bases: seq<string>) {
    forall b :: b in bases ==> RoleFree(b)
  }

  /** All types that can ever be generated. */
  ghost function Universe(bases: seq<string>, roles: set<string>): set<string> {
    Elements(bases) + set b, r | b in bases && r in roles :: Instance(b, r)
  }

  /** What the list always is: distinct types out of the universe, of which just the base types have no role. */
  ghost predicate Listed(objects: seq<string>, bases: seq<string>, roles: set<string>) {
    && Distinct(objects) && bases <= objects
    && (forall i :: |bases| <= i < |objects| ==> !RoleFree(objects[i]))
    && Elements(objects) <= Universe(bases, roles)
  }

  /** Nothing superfluous: the objects are in every complete set. */
  ghost predicate Necessary(objects: seq<string>, bases: seq<string>, requests: Requests) {
    forall s: set<string> :: Complete(s, bases, requests) ==> Elements(objects) <= s
  }

  lemma ListIsBounded(objects: seq<string>, bases: seq<string>, roles: set<string>)
    requires Listed(objects, bases, roles)
    ensures |objects| <= |Universe(bases, roles)|
  {
    ElementsCount(objects);
    SubsetCount(Elements(objects), Universe(bases, roles));
  }

  lemma ObjectSplits(o: string, bases: seq<string>, roles: set<string>)
    requires AllRoleFree(bases) && o in Universe(bases, roles)
    ensures Base(o) in bases && (Role(o) == "" || Role(o) in roles)
  {
    if o in bases {
      assert o[..|o|] == o;
    } else {
      var b, r :| b in bases && r in roles && o == Instance(b, r);
      InstanceSplits(b, r);
    }
  }

  lemma MoreIsGiven(t: string, objects: set<string>, more: set<string>, bases: seq<string>)
    requires Given(t, objects, bases) && objects <= more
    ensures Given(t, more, bases)
  {
  }

  lemma MoreIsSatisfied(o: string, objects: set<string>, more: set<string>, bases: seq<string>, requests: Requests)
    requires Satisfied(o, objects, bases, requests) && objects <= more
    ensures Satisfied(o, more, bases, requests)
  {
    forall t | t in requests(Base(o), Role(o))
      ensures Given(t, more, bases)
    {
      MoreIsGiven(t, objects, more, bases);
    }
  }

  lemma MemberOf(objects: seq<string>, x: string)
    ensures x in objects <==> x in Elements(objects)
  {
  }

  lemma AppendIsListed(objects: seq<string>, b: string, role: string, bases: seq<string>, roles: set<string>)
    requires Listed(objects, bases, roles) && AllRoleFree(bases) && b in bases && role in roles
    requires Instance(b, role) !in objects
    ensures Listed(objects + [Instance(b, role)], bases, roles)
  {
    DotOfInstance(b, role);
    var more := objects + [Instance(b, role)];
    assert Elements(more) == Elements(objects) + {Instance(b, role)};
  }

  lemma AppendIsNecessary(objects: seq<string>, o: string, t: string, b: string, bases: seq<string>, requests: Requests)
    requires Necessary(objects, bases, requests) && o in objects
    requires t in requests(Base(o), Role(o)) && Role(t) != "" && b in bases && Base(t) <= b
    ensures Necessary(objects + [Instance(b, Role(t))], bases, requests)
  {
    var more := objects + [Instance(b, Role(t))];
    assert Elements(more) == Elements(objects) + {Instance(b, Role(t))};
    forall s: set<string> | Complete(s, bases, requests)
      ensures Elements(more) <= s
    {
      MemberOf(objects, o);
      assert Satisfied(o, s, bases, requests);
      assert Given(t, s, bases);
    }
  }

  // ----- The generator -----

  method Contains(objects: seq<string>, x: string) returns (found: bool)
    ensures found <==> x in objects
  {
    for ll := 0 to |objects|
      invariant x !in objects[..ll]
    {
      if objects[ll] == x {
        return true;
      }
      assert objects[..ll + 1] == objects[..ll] + [objects[ll]];
    }
    assert objects[..|objects|] == objects;
    return false;
  }

  /** Adds what the request of object o for type t needs; the list grows while the loop runs over it. */
  method AddInstances(objects: seq<string>, t: string, ghost o: string, ghost bases: seq<string>,
                      ghost roles: set<string>, ghost requests: Requests) returns (more: seq<string>)
    requires AllRoleFree(bases) && Listed(objects, bases, roles) && Necessary(objects, bases, requests)
    requires o in objects && t in requests(Base(o), Role(o)) && Role(t) in roles && Role(t) != ""
    ensures objects <= more && Listed(more, bases, roles) && Necessary(more, bases, requests)
    ensures Given(t, Elements(more), bases)
  {
    var base, templ := Base(t), Role(t);
    more := objects;
    var kk := 0;
    while kk < |more|
      invariant kk <= |more| && objects <= more && Listed(more, bases, roles) && Necessary(more, bases, requests)
      invariant forall i :: 0 <= i < kk && i < |bases| && base <= bases[i] ==> Instance(bases[i], templ) in more
      decreases if kk < |bases| then |bases| - kk else 0, |more| - kk
    {
      var b := more[kk];
      if base <= b && RoleFree(b) {
        assert b == bases[kk] && b in bases;
        var instantiation := Instance(b, templ);
        var found := Contains(more, instantiation);
        if !found {
          AppendIsListed(more, b, templ, bases, roles);
          AppendIsNecessary(more, o, t, b, bases, requests);
          more := more + [instantiation];
        }
      }
      kk := kk + 1;
    }
  }

  /** Satisfies all requests of object o. */
  method Satisfy(objects: seq<string>, o: string, requests: Requests, ghost bases: seq<string>, ghost roles: set<string>)
    returns (more: seq<string>)
    requires AllRoleFree(bases) && FiniteRoles(roles, bases, requests)
    requires Listed(objects, bases, roles) && Necessary(objects, bases, requests) && o in objects
    ensures objects <= more && Listed(more, bases, roles) && Necessary(more, bases, requests)
    ensures Satisfied(o, Elements(more), bases, requests)
  {
    var request := requests(Base(o), Role(o));
    MemberOf(objects, o);
    ObjectSplits(o, bases, roles);
    more := objects;
    for jj := 0 to |request|
      invariant objects <= more && Listed(more, bases, roles) && Necessary(more, bases, requests)
      invariant AllGiven(request[..jj], Elements(more), bases)
    {
      ghost var before := more;
      assert request[jj] in request;
      if Role(request[jj]) != "" {
        more := AddInstances(more, request[jj], o, bases, roles, requests);
      }
      OneMoreGiven(request, jj, Elements(before), Elements(more), bases);
    }
    assert request[..|request|] == request;
  }

  ghost predicate AllGiven(request: seq<string>, objects: set<string>, bases: seq<string>) {
    forall t :: t in request ==> Given(t, objects, bases)
  }

  lemma OneMoreGiven(request: seq<string>, jj: nat, objects: set<string>, more: set<string>, bases: seq<string>)
    requires jj < |request| && AllGiven(request[..jj], objects, bases) && objects <= more
    requires Given(request[jj], more, bases)
    ensures AllGiven(request[..jj + 1], more, bases)
  {
    forall t | t in request[..jj + 1]
      ensures Given(t, more, bases)
    {
      if t in request[..jj] {
        MoreIsGiven(t, objects, more, bases);
      }
    }
  }

  /** The first n objects have what they request. */
  ghost predicate AllSatisfied(objects: seq<string>, n: nat, bases: seq<string>, requests: Requests) {
    n <= |objects| && forall i :: 0 <= i < n ==> Satisfied(objects[i], Elements(objects), bases, requests)
  }

  lemma OneMoreSatisfied(before: seq<string>, objects: seq<string>, n: nat, bases: seq<string>, requests: Requests)
    requires AllSatisfied(before, n, bases, requests) && before <= objects && n < |before|
    requires Satisfied(before[n], Elements(objects), bases, requests)
    ensures AllSatisfied(objects, n + 1, bases, requests)
  {
    assert Elements(before) <= Elements(objects);
    forall i | 0 <= i < n
      ensures Satisfied(objects[i], Elements(objects), bases, requests)
    {
      MoreIsSatisfied(before[i], Elements(before), Elements(objects), bases, requests);
    }
  }

  lemma ListIsComplete(objects: seq<string>, bases: seq<string>, roles: set<string>, requests: Requests)
    requires Listed(objects, bases, roles) && AllSatisfied(objects, |objects|, bases, requests)
    ensures Complete(Elements(objects), bases, requests)
  {
    forall o | o in Elements(objects)
      ensures Satisfied(o, Elements(objects), bases, requests)
    {
      MemberOf(objects, o);
      var i :| 0 <= i < |objects| && objects[i] == o;
    }
    forall b | b in bases
      ensures b in Elements(objects)
    {
      MemberOf(objects, b);
    }
  }

  /**
   The complete list: no duplicates, all base types, all requests satisfied, and nothing that could be left out. It
   is found after finitely many steps if finitely many roles suffice.
   */
  method Generate(bases: seq<string>, requests: Requests, ghost roles: set<string>) returns (objects: seq<string>)
    requires Distinct(bases) && AllRoleFree(bases) && FiniteRoles(roles, bases, requests)
    ensures Distinct(objects) && Complete(Elements(objects), bases, requests)
    ensures forall s: set<string> :: Complete(s, bases, requests) ==> Elements(objects) <= s
  {
    objects := bases;
    var ii := 0;
    while ii < |objects|
      invariant Listed(objects, bases, roles) && Necessary(objects, bases, requests)
      invariant AllSatisfied(objects, ii, bases, requests)
      decreases |Universe(bases, roles)| - ii
    {
      ghost var before := objects;
      objects := Satisfy(objects, objects[ii], requests, bases, roles);
      OneMoreSatisfied(before, objects, ii, bases, requests);
      ListIsBounded(objects, bases, roles);
      ii := ii + 1;
    }
    ListIsComplete(objects, bases, roles, requests);
  }
}
