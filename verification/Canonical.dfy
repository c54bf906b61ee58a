/**
 * The canonical form of generated evidence (preservation/generator/main.go, lines
 * 57-88): review tickets and observation times masked, everything else kept. The
 * tree is the one json.Unmarshal has just built, so no part of it is shared.
 */
module Canonical {
  import opened Json

  const TICKET := "<review-ticket>"
  const FROZEN_TIME := "2000-01-01T00:00:00Z"

  predicate IsTime(key: string) { key in {"importedAt", "createdAt", "updatedAt", "acceptedAt", "addedAt"} }

  predicate Masked(key: string) { key == "token" || IsTime(key) }

  function Mask(key: string, v: Json): Json
    requires Masked(key)
  {
    if key == "token" then if v != Str("") then Str(TICKET) else v
    else if v != Null && v != Str("") then Str(FROZEN_TIME) else v
  }

  function Canon(x: Json): (r: Json)
    ensures x.Object? <==> r.Object?
    ensures x.Array? <==> r.Array?
    decreases x
  {
    match x
    case Object(members) =>
      Object(map k | k in members :: if Masked(k) then Mask(k, members[k]) else Canon(members[k]))
    case Array(items) =>
      Array(seq(|items|, i requires 0 <= i < |items| => Canon(items[i])))
    case _ => x
  }

  function CanonMember(key: string, v: Json): Json {
    if Masked(key) then Mask(key, v) else Canon(v)
  }

  // ---------------------------------------------------------------- the visit

  method Visit(value: Json) returns (r: Json)
    ensures r == Canon(value)
    decreases value, 1
  {
    match value
    case Object(members) =>
      var node := VisitMembers(value);
      r := Object(node);
    case Array(items) =>
      var node := VisitItems(value);
      r := Array(node);
    case _ =>
      r := value;
  }

  /** The range over a map, in any order, assigning each key it meets. */
  method VisitMembers(value: Json) returns (node: map<string, Json>)
    requires value.Object?
    ensures node == Canon(value).members
    decreases value, 0
  {
    node := value.members;
    var rest := node.Keys;
    while rest != {}
      invariant node.Keys == value.members.Keys && rest <= node.Keys
      invariant forall k :: k in node ==>
        node[k] == if k in rest then value.members[k] else CanonMember(k, value.members[k])
      decreases rest
    {
      var k :| k in rest;
      var v := node[k];
      rest := rest - {k};
      if k == "token" {
        if v != Str("") {
          node := node[k := Str(TICKET)];
        }
      } else if IsTime(k) {
        if v != Null && v != Str("") {
          node := node[k := Str(FROZEN_TIME)];
        }
      } else {
        var visited := Visit(value.members[k]);
        node := node[k := visited];
      }
    }
  }

  method VisitItems(value: Json) returns (node: seq<Json>)
    requires value.Array?
    ensures node == Canon(value).items
    decreases value, 0
  {
    node := value.items;
    for i := 0 to |node|
      invariant |node| == |value.items|
      invariant forall j :: 0 <= j < i ==> node[j] == Canon(value.items[j])
      invariant forall j :: i <= j < |node| ==> node[j] == value.items[j]
    {
      var visited := Visit(value.items[i]);
      node := node[i := visited];
    }
  }

  // ---------------------------------------------------------------- what it forgets

  predicate BothEmptyOrNot(a: Json, b: Json) { a == Str("") <==> b == Str("") }

  /** Equal except for the content of tickets and times. */
  predicate Agree(a: Json, b: Json)
    decreases a, 0
  {
    if a.Object? && b.Object? then
      && a.members.Keys == b.members.Keys
      && forall k :: k in a.members ==> AgreeMember(k, a.members[k], b.members[k])
    else if a.Array? && b.Array? then
      |a.items| == |b.items| && forall i :: 0 <= i < |a.items| ==> Agree(a.items[i], b.items[i])
    else a == b
  }

  predicate AgreeMember(key: string, a: Json, b: Json)
    decreases a, 1
  {
    if Masked(key) then BothEmptyOrNot(a, b) && (IsTime(key) ==> (a == Null <==> b == Null))
    else Agree(a, b)
  }

  lemma {:induction false} CanonTwice(x: Json)
    ensures Canon(Canon(x)) == Canon(x)
    decreases x
  {
    var c := Canon(x);
    match x
    case Object(members) =>
      forall k | k in members ensures CanonMember(k, c.members[k]) == c.members[k] {
        if !Masked(k) {
          CanonTwice(members[k]);
        }
      }
      assert Canon(c).members == c.members;
    case Array(items) =>
      forall i | 0 <= i < |items| ensures Canon(c.items[i]) == c.items[i] {
        CanonTwice(items[i]);
      }
      assert Canon(c).items == c.items;
    case _ =>
  }

  /** Two trees have one canonical form exactly when they agree outside tickets and times. */
  lemma {:induction false} SameCanonIffAgree(a: Json, b: Json)
    ensures Canon(a) == Canon(b) <==> Agree(a, b)
    decreases a, 1
  {
    if a.Object? && b.Object? {
      SameMembersIffAgree(a, b);
    } else if a.Array? && b.Array? {
      SameItemsIffAgree(a, b);
    }
  }

  lemma {:induction false} SameMembersIffAgree(a: Json, b: Json)
    requires a.Object? && b.Object?
    ensures Canon(a) == Canon(b) <==> Agree(a, b)
    decreases a, 0
  {
    var m, n := a.members, b.members;
    forall k | k in m && k in n ensures CanonMember(k, m[k]) == CanonMember(k, n[k]) <==> AgreeMember(k, m[k], n[k]) {
      if !Masked(k) {
        SameCanonIffAgree(m[k], n[k]);
      }
    }
    if Agree(a, b) {
      AgreeingMembersSame(a, b);
    }
    if Canon(a) == Canon(b) {
      SameMembersAgree(a, b);
    }
  }

  lemma AgreeingMembersSame(a: Json, b: Json)
    requires a.Object? && b.Object? && Agree(a, b)
    requires forall k :: k in a.members && k in b.members && AgreeMember(k, a.members[k], b.members[k]) ==>
      CanonMember(k, a.members[k]) == CanonMember(k, b.members[k])
    ensures Canon(a) == Canon(b)
  {
    assert Canon(a).members == Canon(b).members;
  }

  lemma SameMembersAgree(a: Json, b: Json)
    requires a.Object? && b.Object? && Canon(a) == Canon(b)
    requires forall k :: k in a.members && k in b.members && CanonMember(k, a.members[k]) == CanonMember(k, b.members[k]) ==>
      AgreeMember(k, a.members[k], b.members[k])
    ensures Agree(a, b)
  {
    assert Canon(a).members.Keys == a.members.Keys && Canon(b).members.Keys == b.members.Keys;
    forall k | k in a.members ensures k in b.members && AgreeMember(k, a.members[k], b.members[k]) {
      assert Canon(a).members[k] == CanonMember(k, a.members[k]);
      assert Canon(b).members[k] == CanonMember(k, b.members[k]);
    }
  }

  lemma {:induction false} SameItemsIffAgree(a: Json, b: Json)
    requires a.Array? && b.Array?
    ensures Canon(a) == Canon(b) <==> Agree(a, b)
    decreases a, 0
  {
    forall i | 0 <= i < |a.items| && i < |b.items| ensures Canon(a.items[i]) == Canon(b.items[i]) <==> Agree(a.items[i], b.items[i]) {
      SameCanonIffAgree(a.items[i], b.items[i]);
    }
    assert |Canon(a).items| == |a.items| && |Canon(b).items| == |b.items|;
    if Canon(a) == Canon(b) {
      forall i | 0 <= i < |a.items| ensures Canon(a.items[i]) == Canon(b.items[i]) {
        assert Canon(a).items[i] == Canon(b).items[i];
      }
    }
  }

  /** Masking changes nothing else. */
  lemma MasksOnly(x: Json)
    ensures Agree(x, Canon(x))
  {
    CanonTwice(x);
    SameCanonIffAgree(x, Canon(x));
  }

  // ---------------------------------------------------------------- the masked keys

  /** The five keys of observation times. */
  lemma TimeKeys(key: string)
    ensures IsTime(key) <==>
            key == "importedAt" || key == "createdAt" || key == "updatedAt" || key == "acceptedAt" || key == "addedAt"
  {
  }

  /** One member of a canonical object: a ticket or a time that is there is replaced, an empty one and a missing time stay. */
  lemma MemberMeans(members: map<string, Json>, key: string)
    requires key in members
    ensures Canon(Object(members)).members.Keys == members.Keys
    ensures var v, c := members[key], Canon(Object(members)).members[key];
            && (key == "token" ==> c == if v == Str("") then v else Str("<review-ticket>"))
            && (IsTime(key) ==> c == if v == Null || v == Str("") then v else Str("2000-01-01T00:00:00Z"))
            && (key != "token" && !IsTime(key) ==> c == Canon(v))
  {
  }

  /** Items are canonical in their places, and a scalar is its own canonical form. */
  lemma ItemMeans(x: Json)
    ensures x.Array? ==>
      |Canon(x).items| == |x.items| && forall i :: 0 <= i < |x.items| ==> Canon(x).items[i] == Canon(x.items[i])
    ensures !x.Array? && !x.Object? ==> Canon(x) == x
  {
  }
}
