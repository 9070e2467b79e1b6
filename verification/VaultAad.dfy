/**
 Additional authenticated data: what it says, the byte strings it may have been written as,
 and why those bind it (src/crypto/aad.ts, src/profile.ts).
 */
module VaultAad {
  import opened Prelude
  import opened Unicode
  import opened JsonText

  datatype VaultField = VaultKeyField | VaultPayloadField | VaultIndexField

  function FieldText(f: VaultField): Text {
    match f
    case VaultKeyField => [0x76, 0x61, 0x75, 0x6C, 0x74, 0x5F, 0x6B, 0x65, 0x79] // "vault_key"
    case VaultPayloadField => [0x76, 0x61, 0x75, 0x6C, 0x74, 0x5F, 0x70, 0x61, 0x79, 0x6C, 0x6F, 0x61, 0x64] // "vault_payload"
    case VaultIndexField => [0x76, 0x61, 0x75, 0x6C, 0x74, 0x5F, 0x69, 0x6E, 0x64, 0x65, 0x78] // "vault_index"
  }

  /** A persisted context may be missing, null or a string. */
  datatype Context = Absent | NullContext | Given(text: Text)

  datatype Aad = Aad(userId: Text, resourceId: Text, field: VaultField, context: Context)

  datatype Property = ContextName | FieldName | ResourceIdName | UserIdName

  function NameText(p: Property): Text {
    match p
    case ContextName => [0x63, 0x6F, 0x6E, 0x74, 0x65, 0x78, 0x74] // "context"
    case FieldName => [0x66, 0x69, 0x65, 0x6C, 0x64] // "field"
    case ResourceIdName => [0x72, 0x65, 0x73, 0x6F, 0x75, 0x72, 0x63, 0x65, 0x49, 0x64] // "resourceId"
    case UserIdName => [0x75, 0x73, 0x65, 0x72, 0x49, 0x64] // "userId"
  }

  /** The property as JSON.stringify writes it; an absent one is left out. */
  function MemberOf(a: Aad, p: Property): seq<Member> {
    match p
    case ContextName =>
      (match a.context
       case Absent => []
       case NullContext => [Member(NameText(p), Null)]
       case Given(text) => [Member(NameText(p), String(text))])
    case FieldName => [Member(NameText(p), String(FieldText(a.field)))]
    case ResourceIdName => [Member(NameText(p), String(a.resourceId))]
    case UserIdName => [Member(NameText(p), String(a.userId))]
  }

  function Members(a: Aad, order: seq<Property>): seq<Member> {
    if order == [] then [] else MemberOf(a, order[0]) + Members(a, order[1..])
  }

  /** The order in which an object holds its properties: each of the four once. */
  ghost predicate IsOrder(order: seq<Property>) {
    multiset(order) == multiset{ContextName, FieldName, ResourceIdName, UserIdName}
  }

  function Stringify(a: Aad, order: seq<Property>): Text {
    RenderObject(Members(a, order))
  }

  const CANONICAL_ORDER := [ContextName, FieldName, ResourceIdName, UserIdName]
  const LEGACY_ORDER := [UserIdName, ResourceIdName, FieldName, ContextName]

  function CanonicalAadString(a: Aad): Text {
    Stringify(a, CANONICAL_ORDER)
  }

  function Deduplicated(ts: seq<Text>): (r: seq<Text>)
    ensures forall t :: t in r <==> t in ts
  {
    if ts == [] then []
    else
      var n := |ts| - 1;
      var rest := Deduplicated(ts[..n]);
      assert ts == ts[..n] + [ts[n]];
      if ts[n] in rest then rest else rest + [ts[n]]
  }

  function Encoded(ts: seq<Text>): (r: seq<Bytes>)
    ensures |r| == |ts| && forall i :: 0 <= i < |ts| ==> r[i] == StringToBytes(ts[i])
  {
    seq(|ts|, i requires 0 <= i < |ts| => StringToBytes(ts[i]))
  }

  /** The record written in each of the orders. */
  function Written(a: Aad, orders: seq<seq<Property>>): (r: seq<Text>)
    ensures |r| == |orders| && forall i :: 0 <= i < |r| ==> r[i] == Stringify(a, orders[i])
  {
    seq(|orders|, i requires 0 <= i < |orders| => Stringify(a, orders[i]))
  }

  function CandidatesIn(a: Aad, orders: seq<seq<Property>>): seq<Bytes> {
    Encoded(Deduplicated(Written(a, orders)))
  }

  /** The canonical order, the former one, and the order of the object itself. */
  function Orders(own: seq<Property>): seq<seq<Property>> {
    [CANONICAL_ORDER, LEGACY_ORDER, own]
  }

  function AadByteCandidates(a: Aad, order: seq<Property>): seq<Bytes> {
    CandidatesIn(a, Orders(order))
  }

  /** Leaving out repetitions loses no candidate and adds none. */
  lemma CandidatesAre(a: Aad, orders: seq<seq<Property>>, b: Bytes)
    ensures b in CandidatesIn(a, orders) <==> exists o :: o in orders && b == StringToBytes(Stringify(a, o))
  {
    var texts := Written(a, orders);
    var unique := Deduplicated(texts);
    if b in CandidatesIn(a, orders) {
      var i :| 0 <= i < |unique| && Encoded(unique)[i] == b;
      assert unique[i] in texts;
      var k :| 0 <= k < |texts| && texts[k] == unique[i];
      assert orders[k] in orders;
    }
    forall o | o in orders && b == StringToBytes(Stringify(a, o))
      ensures b in CandidatesIn(a, orders)
    {
      var k :| 0 <= k < |orders| && orders[k] == o;
      assert texts[k] in unique;
      var i :| 0 <= i < |unique| && unique[i] == texts[k];
      assert Encoded(unique)[i] == b;
    }
  }

  lemma OrdersAreOrders(own: seq<Property>, o: seq<Property>)
    requires IsOrder(own) && o in Orders(own)
    ensures IsOrder(o)
  {
  }

  // ---------------------------------------------------------------- orders

  function WithoutContext(order: seq<Property>): (r: seq<Property>)
    ensures forall p :: p in r <==> p in order && p != ContextName
  {
    if order == [] then []
    else if order[0] == ContextName then WithoutContext(order[1..])
    else [order[0]] + WithoutContext(order[1..])
  }

  /** The properties in the order they are written; a missing context is not. */
  function Spelling(a: Aad, order: seq<Property>): seq<Property> {
    if a.context.Absent? then WithoutContext(order) else order
  }

  /** A record written in the order `x` reads like one of the orders tried for the object stored in `own`. */
  predicate Recognised(a: Aad, x: seq<Property>, own: seq<Property>) {
    exists o :: o in Orders(own) && Spelling(a, o) == Spelling(a, x)
  }

  lemma {:induction false} SpellingWritesTheSame(a: Aad, order: seq<Property>)
    ensures Members(a, order) == Members(a, Spelling(a, order))
  {
    if order != [] {
      SpellingWritesTheSame(a, order[1..]);
      if a.context.Absent? && order[0] != ContextName {
        assert WithoutContext(order)[0] == order[0] && WithoutContext(order)[1..] == WithoutContext(order[1..]);
      } else if !a.context.Absent? {
        assert Spelling(a, order[1..]) == order[1..];
      }
    }
  }

  /** Every property listed is written. */
  predicate AllWritten(a: Aad, order: seq<Property>) {
    a.context.Absent? ==> ContextName !in order
  }

  lemma {:induction false} NamesFollowOrder(a: Aad, order: seq<Property>)
    requires AllWritten(a, order)
    ensures |Members(a, order)| == |order|
    ensures forall i :: 0 <= i < |order| ==> Members(a, order)[i].name == NameText(order[i])
  {
    if order != [] {
      MemberHasName(a, order[0]);
      NamesFollowOrder(a, order[1..]);
      assert MemberOf(a, order[0]) != [];
    }
  }

  lemma SameMembersSameOrder(a: Aad, p: seq<Property>, q: seq<Property>)
    requires AllWritten(a, p) && AllWritten(a, q) && Members(a, p) == Members(a, q)
    ensures p == q
  {
    NamesFollowOrder(a, p);
    NamesFollowOrder(a, q);
    forall i | 0 <= i < |p|
      ensures p[i] == q[i]
    {
      NamesDiffer(p[i], q[i]);
    }
  }

  /** One record is written the same in two orders exactly when they spell it the same. */
  lemma MembersSameExactlyWhen(a: Aad, p: seq<Property>, q: seq<Property>)
    ensures Members(a, p) == Members(a, q) <==> Spelling(a, p) == Spelling(a, q)
  {
    SpellingWritesTheSame(a, p);
    SpellingWritesTheSame(a, q);
    if Members(a, p) == Members(a, q) {
      SameMembersSameOrder(a, Spelling(a, p), Spelling(a, q));
    }
  }

  lemma BytesSameExactlyWhen(a: Aad, p: seq<Property>, q: seq<Property>)
    requires IsOrder(p) && IsOrder(q)
    ensures StringToBytes(Stringify(a, p)) == StringToBytes(Stringify(a, q)) <==> Spelling(a, p) == Spelling(a, q)
  {
    MembersSameExactlyWhen(a, p, q);
    MembersNotEmpty(a, p);
    MembersNotEmpty(a, q);
    if StringToBytes(Stringify(a, p)) == StringToBytes(Stringify(a, q)) {
      BytesAreInjective(Members(a, p), Members(a, q));
    }
  }

  /** A record's candidates hold what it was written as in some order exactly when that order is recognised. */
  lemma CandidateExactlyWhenRecognised(a: Aad, x: seq<Property>, own: seq<Property>)
    requires IsOrder(x) && IsOrder(own)
    ensures StringToBytes(Stringify(a, x)) in AadByteCandidates(a, own) <==> Recognised(a, x, own)
  {
    var bytes := StringToBytes(Stringify(a, x));
    CandidatesAre(a, Orders(own), bytes);
    forall o | o in Orders(own)
      ensures bytes == StringToBytes(Stringify(a, o)) <==> Spelling(a, o) == Spelling(a, x)
    {
      OrdersAreOrders(own, o);
      BytesSameExactlyWhen(a, x, o);
    }
  }

  // ---------------------------------------------------------------- binding

  lemma NamesDiffer(p: Property, q: Property)
    requires NameText(p) == NameText(q)
    ensures p == q
  {
  }

  lemma FieldsDiffer(f: VaultField, g: VaultField)
    requires FieldText(f) == FieldText(g)
    ensures f == g
  {
  }

  lemma {:induction false} MemberPresent(a: Aad, order: seq<Property>, p: Property)
    requires p in order
    ensures forall m <- MemberOf(a, p) :: m in Members(a, order)
  {
    if order[0] != p {
      MemberPresent(a, order[1..], p);
    }
  }

  lemma {:induction false} MemberComesFrom(a: Aad, order: seq<Property>, m: Member)
    requires m in Members(a, order)
    ensures exists p :: p in order && m in MemberOf(a, p)
  {
    if m !in MemberOf(a, order[0]) {
      MemberComesFrom(a, order[1..], m);
    }
  }

  lemma MemberHasName(a: Aad, p: Property)
    ensures MemberOf(a, p) == [] || (|MemberOf(a, p)| == 1 && MemberOf(a, p)[0].name == NameText(p))
  {
  }

  lemma NameDecides(a: Aad, b: Aad, x: Property, y: Property, m: Member)
    requires m in MemberOf(a, x) && m in MemberOf(b, y)
    ensures x == y && MemberOf(a, x) == MemberOf(b, x)
  {
    MemberHasName(a, x);
    MemberHasName(b, y);
    NamesDiffer(x, y);
  }

  lemma EveryPropertyIn(order: seq<Property>, p: Property)
    requires IsOrder(order)
    ensures p in order
  {
    assert p in multiset(order);
  }

  /** A property written in one record is written the same in any record with the same members. */
  lemma SameProperty(a: Aad, b: Aad, p: seq<Property>, q: seq<Property>, x: Property)
    requires x in p && Members(a, p) == Members(b, q)
    ensures MemberOf(a, x) != [] ==> MemberOf(a, x) == MemberOf(b, x)
  {
    if MemberOf(a, x) != [] {
      MemberPresent(a, p, x);
      var m := MemberOf(a, x)[0];
      MemberComesFrom(b, q, m);
      var y :| y in q && m in MemberOf(b, y);
      NameDecides(a, b, x, y, m);
    }
  }

  lemma MembersDetermineAad(a: Aad, b: Aad, p: seq<Property>, q: seq<Property>)
    requires IsOrder(p) && IsOrder(q) && Members(a, p) == Members(b, q)
    ensures a == b
  {
    forall x: Property
      ensures x in p && x in q
    {
      EveryPropertyIn(p, x);
      EveryPropertyIn(q, x);
    }
    SameProperty(a, b, p, q, ContextName);
    SameProperty(b, a, q, p, ContextName);
    SameProperty(a, b, p, q, FieldName);
    SameProperty(a, b, p, q, ResourceIdName);
    SameProperty(a, b, p, q, UserIdName);
    assert MemberOf(a, FieldName)[0] == MemberOf(b, FieldName)[0];
    assert MemberOf(a, ResourceIdName)[0] == MemberOf(b, ResourceIdName)[0];
    assert MemberOf(a, UserIdName)[0] == MemberOf(b, UserIdName)[0];
    FieldsDiffer(a.field, b.field);
    if a.context != Absent {
      assert MemberOf(a, ContextName)[0] == MemberOf(b, ContextName)[0];
    }
  }

  lemma MembersNotEmpty(a: Aad, order: seq<Property>)
    requires IsOrder(order)
    ensures Members(a, order) != []
  {
    EveryPropertyIn(order, FieldName);
    MemberPresent(a, order, FieldName);
    assert MemberOf(a, FieldName)[0] in Members(a, order);
  }

  /**
   Two records written to the same bytes, in whatever orders, are the same record: user, resource,
   field and context, with missing, null and every string context told apart.
   */
  lemma BytesBindAad(a: Aad, b: Aad, p: seq<Property>, q: seq<Property>)
    requires IsOrder(p) && IsOrder(q) && StringToBytes(Stringify(a, p)) == StringToBytes(Stringify(b, q))
    ensures a == b
  {
    MembersNotEmpty(a, p);
    MembersNotEmpty(b, q);
    BytesAreInjective(Members(a, p), Members(b, q));
    MembersDetermineAad(a, b, p, q);
  }

  /** No candidate of one record is a candidate of another. */
  lemma CandidatesBindAad(a: Aad, b: Aad, p: seq<Property>, q: seq<Property>, bytes: Bytes)
    requires IsOrder(p) && IsOrder(q) && bytes in AadByteCandidates(a, p) && bytes in AadByteCandidates(b, q)
    ensures a == b
  {
    CandidatesAre(a, Orders(p), bytes);
    CandidatesAre(b, Orders(q), bytes);
    var x :| x in Orders(p) && bytes == StringToBytes(Stringify(a, x));
    var y :| y in Orders(q) && bytes == StringToBytes(Stringify(b, y));
    OrdersAreOrders(p, x);
    OrdersAreOrders(q, y);
    BytesBindAad(a, b, x, y);
  }

  /** What was written for one record, in any order, is a candidate of that record alone, and of it if recognised. */
  lemma WrittenBelongsTo(a: Aad, x: seq<Property>, b: Aad, own: seq<Property>)
    requires IsOrder(x) && IsOrder(own)
    ensures StringToBytes(Stringify(a, x)) in AadByteCandidates(b, own) <==> a == b && Recognised(a, x, own)
  {
    var bytes := StringToBytes(Stringify(a, x));
    CandidateExactlyWhenRecognised(a, x, own);
    if bytes in AadByteCandidates(b, own) {
      CandidatesAre(b, Orders(own), bytes);
      var o :| o in Orders(own) && bytes == StringToBytes(Stringify(b, o));
      OrdersAreOrders(own, o);
      BytesBindAad(a, b, x, o);
    }
  }

  /** The two orders the library itself writes are always recognised, and so is the object's own. */
  lemma LibraryOrdersAreRecognised(a: Aad, own: seq<Property>)
    ensures Recognised(a, CANONICAL_ORDER, own) && Recognised(a, LEGACY_ORDER, own) && Recognised(a, own, own)
  {
    InTriedOrders(own);
  }

  lemma InTriedOrders(own: seq<Property>)
    ensures CANONICAL_ORDER in Orders(own) && LEGACY_ORDER in Orders(own) && own in Orders(own)
  {
    assert Orders(own)[0] == CANONICAL_ORDER && Orders(own)[1] == LEGACY_ORDER && Orders(own)[2] == own;
  }

  // ---------------------------------------------------------------- the text itself

  lemma NamesAre()
    ensures Spells(NameText(ContextName), "context") && Spells(NameText(FieldName), "field")
    ensures Spells(NameText(ResourceIdName), "resourceId") && Spells(NameText(UserIdName), "userId")
  {
  }

  lemma FieldsAre()
    ensures Spells(FieldText(VaultKeyField), "vault_key") && Spells(FieldText(VaultPayloadField), "vault_payload")
    ensures Spells(FieldText(VaultIndexField), "vault_index")
  {
  }

  lemma PlainFields(f: VaultField)
    ensures IsPlain(FieldText(f))
  {
  }

  lemma PlainNames(p: Property)
    ensures IsPlain(NameText(p))
  {
  }

  lemma FourMembers(a: Aad, context: Text, order: seq<Property>)
    requires a.context == Given(context) && order == CANONICAL_ORDER
    ensures Members(a, order) == [
              Member(NameText(ContextName), String(context)), Member(NameText(FieldName), String(FieldText(a.field))),
              Member(NameText(ResourceIdName), String(a.resourceId)), Member(NameText(UserIdName), String(a.userId))]
  {
    var rest := [FieldName, ResourceIdName, UserIdName];
    assert order[1..] == rest && rest[1..] == [ResourceIdName, UserIdName] && rest[1..][1..] == [UserIdName] && rest[1..][1..][1..] == [];
    assert Members(a, [UserIdName]) == MemberOf(a, UserIdName);
    assert Members(a, [ResourceIdName, UserIdName]) == MemberOf(a, ResourceIdName) + MemberOf(a, UserIdName);
    assert Members(a, rest) == MemberOf(a, FieldName) + Members(a, [ResourceIdName, UserIdName]);
  }

  lemma PlainMembersRead(context: Text, field: Text, resourceId: Text, userId: Text, names: seq<Text>)
    requires IsPlain(context) && IsPlain(field) && IsPlain(resourceId) && IsPlain(userId)
    requires |names| == 4 && forall i :: 0 <= i < 4 ==> IsPlain(names[i])
    ensures RenderObject([Member(names[0], String(context)), Member(names[1], String(field)), Member(names[2], String(resourceId)), Member(names[3], String(userId))]) ==
            [OPEN_BRACE] + (InQuotes(names[0]) + [COLON] + InQuotes(context)
            + [COMMA] + (InQuotes(names[1]) + [COLON] + InQuotes(field)
            + [COMMA] + (InQuotes(names[2]) + [COLON] + InQuotes(resourceId)
            + [COMMA] + (InQuotes(names[3]) + [COLON] + InQuotes(userId))))) + [CLOSE_BRACE]
  {
    PlainMember(names[0], context);
    PlainMember(names[1], field);
    PlainMember(names[2], resourceId);
    PlainMember(names[3], userId);
    FourRendered(Member(names[0], String(context)), Member(names[1], String(field)), Member(names[2], String(resourceId)), Member(names[3], String(userId)));
  }

  /** The names of the four properties in alphabetical order. */
  function Names(): (names: seq<Text>)
    ensures |names| == 4
  {
    [NameText(ContextName), NameText(FieldName), NameText(ResourceIdName), NameText(UserIdName)]
  }

  /** A record of plain texts is written out as it reads, its properties in that order. */
  lemma PlainRecordReads(a: Aad, context: Text, names: seq<Text>)
    requires a.context == Given(context) && IsPlain(context) && IsPlain(a.resourceId) && IsPlain(a.userId) && names == Names()
    ensures CanonicalAadString(a) ==
            [OPEN_BRACE] + (InQuotes(names[0]) + [COLON] + InQuotes(context)
            + [COMMA] + (InQuotes(names[1]) + [COLON] + InQuotes(FieldText(a.field))
            + [COMMA] + (InQuotes(names[2]) + [COLON] + InQuotes(a.resourceId)
            + [COMMA] + (InQuotes(names[3]) + [COLON] + InQuotes(a.userId))))) + [CLOSE_BRACE]
  {
    FourMembers(a, context, CANONICAL_ORDER);
    PlainFields(a.field);
    PlainNames(ContextName);
    PlainNames(FieldName);
    PlainNames(ResourceIdName);
    PlainNames(UserIdName);
    PlainMembersRead(context, FieldText(a.field), a.resourceId, a.userId, names);
  }
}
