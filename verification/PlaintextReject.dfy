/**
 The walk that keeps plaintext fields out of persisted records
 (src/validation/plaintext-reject.ts): a depth-first search with one visited set, over
 object graphs that may share nodes and run in cycles.
 */
module PlaintextReject {
  import opened Prelude

  // ---------------------------------------------------------------- object graphs

  datatype Value = Undefined | Null | Primitive | Object(id: nat)
  datatype Field = Field(name: Text, value: Value)

  /** The enumerable own entries of every object, in order. */
  type Heap = map<nat, seq<Field>>

  predicate InHeap(h: Heap, v: Value) {
    v.Object? ==> v.id in h
  }

  /** References lead to objects. */
  ghost predicate Closed(h: Heap) {
    forall id <- h, i | 0 <= i < |h[id]| :: InHeap(h, h[id][i].value)
  }

  const FORBIDDEN_FIELDS: seq<string> := [
    "vaultPassword", "confirmVaultPassword", "password", "recoveryPhrase", "recoveryWords", "mnemonic",
    "seed", "seedPhrase", "passphrase", "privateKey", "secret", "userVaultKey", "prfOutput", "puk",
    "portableUnlockKey", "decryptedPayload", "displayName", "walletLabel", "strategyNote",
    "subscriptionToken", "title", "body", "content", "message"]

  predicate IsAscii(s: string) {
    forall i :: 0 <= i < |s| ==> s[i] < '\U{0080}'
  }

  /** `lower` is `String.prototype.toLowerCase`. */
  predicate IsForbidden(lower: Text -> Text, name: Text) {
    exists f <- FORBIDDEN_FIELDS :: IsAscii(f) && lower(name) == lower(Ascii(f))
  }

  function LowerUnit(u: CodeUnit): CodeUnit {
    if 0x41 <= u <= 0x5A then u + 0x20 else u
  }

  /** What `toLowerCase` does to ASCII: each capital letter becomes the small one. */
  ghost predicate LowersAscii(lower: Text -> Text) {
    forall t: Text :: (forall u <- t :: u < 0x80) ==> LowersEach(lower(t), t)
  }

  predicate LowersEach(lowered: Text, t: Text) {
    |lowered| == |t| && forall i :: 0 <= i < |t| ==> lowered[i] == LowerUnit(t[i])
  }

  /** The same unit, or the same letter from A to Z. */
  predicate SameLetter(u: CodeUnit, c: CodeUnit) {
    || u == c
    || (0x41 <= u <= 0x5A && c == u + 0x20)
    || (0x41 <= c <= 0x5A && u == c + 0x20)
  }

  predicate SameButForCase(t: Text, literal: string) {
    |t| == |literal| && forall i :: 0 <= i < |t| ==> literal[i] < '\U{0080}' && SameLetter(t[i], literal[i] as int)
  }

  lemma SameLowered(lower: Text -> Text, name: Text, f: string)
    requires LowersAscii(lower) && (forall u <- name :: u < 0x80) && IsAscii(f)
    ensures lower(name) == lower(Ascii(f)) <==> SameButForCase(name, f)
  {
    AsciiSpells(f);
    var t := Ascii(f);
    assert forall u <- t :: u < 0x80;
    assert LowersEach(lower(name), name) && LowersEach(lower(t), t);
    if lower(name) == lower(t) {
      forall i | 0 <= i < |name|
        ensures SameLetter(name[i], f[i] as int)
      {
        assert lower(name)[i] == lower(t)[i];
      }
    }
  }

  /** An ASCII name is forbidden exactly when it is a listed one, in whatever case. */
  lemma ForbiddenExactlyWhen(lower: Text -> Text, name: Text, listed: seq<string>)
    requires LowersAscii(lower) && (forall u <- name :: u < 0x80) && listed == FORBIDDEN_FIELDS
    ensures IsForbidden(lower, name) <==> exists f <- listed :: SameButForCase(name, f)
  {
    forall f | f in listed && IsAscii(f)
      ensures lower(name) == lower(Ascii(f)) <==> SameButForCase(name, f)
    {
      SameLowered(lower, name, f);
    }
  }

  /** Passwords, recovery secrets, keys, and what a vault keeps. */
  lemma ListedFields(listed: seq<string>)
    requires listed == FORBIDDEN_FIELDS
    ensures |listed| == 24
    ensures "vaultPassword" in listed && "confirmVaultPassword" in listed && "password" in listed && "passphrase" in listed
    ensures "recoveryPhrase" in listed && "recoveryWords" in listed && "mnemonic" in listed && "seed" in listed && "seedPhrase" in listed
    ensures "privateKey" in listed && "secret" in listed && "userVaultKey" in listed && "prfOutput" in listed && "puk" in listed && "portableUnlockKey" in listed
    ensures "decryptedPayload" in listed && "displayName" in listed && "walletLabel" in listed && "strategyNote" in listed && "subscriptionToken" in listed
    ensures "title" in listed && "body" in listed && "content" in listed && "message" in listed
  {
    assert listed[0] in listed && listed[1] in listed && listed[2] in listed && listed[8] in listed;
    assert listed[3] in listed && listed[4] in listed && listed[5] in listed && listed[6] in listed && listed[7] in listed;
    assert listed[9] in listed && listed[10] in listed && listed[11] in listed && listed[12] in listed && listed[13] in listed && listed[14] in listed;
    assert listed[15] in listed && listed[16] in listed && listed[17] in listed && listed[18] in listed && listed[19] in listed;
    assert listed[20] in listed && listed[21] in listed && listed[22] in listed && listed[23] in listed;
  }

  /** The walk itself works for any rule on field names. */
  type Rule = Text -> bool

  predicate Offends(forbidden: Rule, f: Field) {
    forbidden(f.name) && f.value != Undefined
  }

  /** A field that is there but undefined is none; null is a value. */
  lemma OffendsExactlyWhen(forbidden: Rule, name: Text, value: Value)
    ensures Offends(forbidden, Field(name, value)) <==> forbidden(name) && (value.Null? || value.Primitive? || value.Object?)
  {
  }

  /** Following the named fields one after another leads from `v` to the object `id`. */
  ghost predicate Leads(h: Heap, v: Value, trail: seq<Text>, id: nat)
    decreases |trail|
  {
    v.Object? && v.id in h &&
    if trail == [] then v.id == id
    else exists i :: 0 <= i < |h[v.id]| && h[v.id][i].name == trail[0] && Leads(h, h[v.id][i].value, trail[1..], id)
  }

  ghost predicate ReachableFrom(h: Heap, v: Value, id: nat) {
    exists trail :: Leads(h, v, trail, id)
  }

  ghost predicate HasOffence(forbidden: Rule, h: Heap, id: nat) {
    id in h && exists i :: 0 <= i < |h[id]| && Offends(forbidden, h[id][i])
  }

  const DOT: CodeUnit := 0x2E

  function FieldPath(path: Text, name: Text): Text {
    if path != [] then path + [DOT] + name else name
  }

  function PathOf(path: Text, trail: seq<Text>): Text
    decreases |trail|
  {
    if trail == [] then path else PathOf(FieldPath(path, trail[0]), trail[1..])
  }

  /** Names are joined by dots. */
  lemma PathsAre(path: Text, name: Text)
    ensures Spells([DOT], ".") && FieldPath([], name) == name
    ensures path != [] ==> FieldPath(path, name) == path + [DOT] + name
  {
  }

  /** The two names that appear in the error message. */
  datatype Report = Report(field: Text, path: Text)

  /** The report names an offending field of an object the trail leads to, and where it is. */
  ghost predicate Justifies(forbidden: Rule, h: Heap, v: Value, path: Text, r: Report, trail: seq<Text>, id: nat, i: nat) {
    && Leads(h, v, trail, id) && id in h && i < |h[id]| && Offends(forbidden, h[id][i])
    && r.field == h[id][i].name
    && r.path == FieldPath(PathOf(path, trail), r.field)
  }

  ghost predicate Justified(forbidden: Rule, h: Heap, v: Value, path: Text, r: Report) {
    exists trail, id: nat, i: nat :: Justifies(forbidden, h, v, path, r, trail, id, i)
  }

  lemma {:induction false} LeadsInHeap(h: Heap, v: Value, trail: seq<Text>, id: nat)
    requires Leads(h, v, trail, id)
    ensures id in h
    decreases |trail|
  {
    if trail != [] {
      var i :| 0 <= i < |h[v.id]| && h[v.id][i].name == trail[0] && Leads(h, h[v.id][i].value, trail[1..], id);
      LeadsInHeap(h, h[v.id][i].value, trail[1..], id);
    }
  }

  /** What justifies a report on a field's value justifies it on the object holding the field. */
  lemma JustifiedThroughField(forbidden: Rule, h: Heap, id: nat, i: nat, path: Text, r: Report)
    requires id in h && i < |h[id]|
    requires Justified(forbidden, h, h[id][i].value, FieldPath(path, h[id][i].name), r)
    ensures Justified(forbidden, h, Object(id), path, r)
  {
    var f := h[id][i];
    var trail, target: nat, j: nat :| Justifies(forbidden, h, f.value, FieldPath(path, f.name), r, trail, target, j);
    var longer := [f.name] + trail;
    assert longer[0] == f.name && longer[1..] == trail;
    assert Leads(h, Object(id), longer, target);
    assert PathOf(path, longer) == PathOf(FieldPath(path, f.name), trail);
    assert Justifies(forbidden, h, Object(id), path, r, longer, target, j);
  }

  lemma JustifiedHere(forbidden: Rule, h: Heap, id: nat, i: nat, path: Text)
    requires id in h && i < |h[id]| && Offends(forbidden, h[id][i])
    ensures Justified(forbidden, h, Object(id), path, Report(h[id][i].name, FieldPath(path, h[id][i].name)))
  {
    assert Leads(h, Object(id), [], id) && PathOf(path, []) == path;
    assert Justifies(forbidden, h, Object(id), path, Report(h[id][i].name, FieldPath(path, h[id][i].name)), [], id, i);
  }

  // ---------------------------------------------------------------- the search

  /** The first `n` fields of `id` do not offend and hold only visited objects. */
  ghost predicate Searched(forbidden: Rule, h: Heap, id: nat, n: nat, visited: set<nat>)
    requires id in h && n <= |h[id]|
  {
    forall i :: 0 <= i < n ==> !Offends(forbidden, h[id][i]) && (h[id][i].value.Object? ==> h[id][i].value.id in visited)
  }

  /** Every object in `done` has been searched through. */
  ghost predicate AllSearched(forbidden: Rule, h: Heap, done: set<nat>, visited: set<nat>) {
    forall id <- done :: id in h && Searched(forbidden, h, id, |h[id]|, visited)
  }

  lemma SearchedGrows(forbidden: Rule, h: Heap, done: set<nat>, visited: set<nat>, more: set<nat>)
    requires AllSearched(forbidden, h, done, visited) && visited <= more
    ensures AllSearched(forbidden, h, done, more)
  {
  }

  class Walker {
    var visited: set<nat>

    constructor ()
      ensures visited == {}
    {
      visited := {};
    }

    method Visit(forbidden: Rule, h: Heap, value: Value, path: Text) returns (error: Option<Report>)
      requires Closed(h) && InHeap(h, value) && visited <= h.Keys
      modifies this
      ensures old(visited) <= visited <= h.Keys
      ensures error.None? ==> AllSearched(forbidden, h, visited - old(visited), visited) && (value.Object? ==> value.id in visited)
      ensures error.Some? ==> Justified(forbidden, h, value, path, error.value)
      decreases h.Keys - visited
    {
      if !value.Object? || value.id in visited {
        return None;
      }
      var id := value.id;
      ghost var before := visited;
      visited := visited + {id};
      var entries := h[id];
      for i := 0 to |entries|
        invariant before + {id} <= visited <= h.Keys
        invariant Searched(forbidden, h, id, i, visited)
        invariant AllSearched(forbidden, h, visited - before - {id}, visited)
      {
        var f := entries[i];
        var fieldPath := FieldPath(path, f.name);
        if forbidden(f.name) && f.value != Undefined {
          JustifiedHere(forbidden, h, id, i, path);
          return Some(Report(f.name, fieldPath));
        }
        ghost var reached := visited;
        FieldInHeap(h, id, i);
        var nestedError := Visit(forbidden, h, f.value, fieldPath);
        if nestedError.Some? {
          JustifiedThroughField(forbidden, h, id, i, path, nestedError.value);
          return nestedError;
        }
        FieldSearched(forbidden, h, before, id, i, reached, visited);
      }
      AllSearchedWith(forbidden, h, before, id, visited);
      return None;
    }
  }

  lemma FieldInHeap(h: Heap, id: nat, i: nat)
    requires Closed(h) && id in h && i < |h[id]|
    ensures InHeap(h, h[id][i].value)
  {
  }

  /** One more field searched through keeps what the search has established. */
  lemma FieldSearched(forbidden: Rule, h: Heap, before: set<nat>, id: nat, i: nat, reached: set<nat>, visited: set<nat>)
    requires id in h && i < |h[id]| && before + {id} <= reached <= visited
    requires Searched(forbidden, h, id, i, reached) && AllSearched(forbidden, h, reached - before - {id}, reached)
    requires AllSearched(forbidden, h, visited - reached, visited)
    requires !Offends(forbidden, h[id][i]) && (h[id][i].value.Object? ==> h[id][i].value.id in visited)
    ensures Searched(forbidden, h, id, i + 1, visited)
    ensures AllSearched(forbidden, h, visited - before - {id}, visited)
  {
    SearchedGrows(forbidden, h, reached - before - {id}, reached, visited);
  }

  lemma AllSearchedWith(forbidden: Rule, h: Heap, before: set<nat>, id: nat, visited: set<nat>)
    requires id in h && Searched(forbidden, h, id, |h[id]|, visited)
    requires AllSearched(forbidden, h, visited - before - {id}, visited)
    ensures AllSearched(forbidden, h, visited - before, visited)
  {
  }

  lemma {:induction false} SearchedHoldsAllReachable(forbidden: Rule, h: Heap, visited: set<nat>, v: Value, trail: seq<Text>, id: nat)
    requires AllSearched(forbidden, h, visited, visited) && v.Object? && v.id in visited && Leads(h, v, trail, id)
    ensures id in visited
    decreases |trail|
  {
    if trail != [] {
      var i :| 0 <= i < |h[v.id]| && h[v.id][i].name == trail[0] && Leads(h, h[v.id][i].value, trail[1..], id);
      assert Searched(forbidden, h, v.id, |h[v.id]|, visited);
      SearchedHoldsAllReachable(forbidden, h, visited, h[v.id][i].value, trail[1..], id);
    }
  }

  /**
   The walk ends on every finite graph. It finds nothing exactly when no reachable object has a
   forbidden field with a defined value; otherwise it reports such a field and a path that leads to it.
   */
  method SearchGraph(forbidden: Rule, h: Heap, body: nat) returns (error: Option<Report>)
    requires Closed(h) && body in h
    ensures error.None? <==> forall id | ReachableFrom(h, Object(body), id) :: !HasOffence(forbidden, h, id)
    ensures error.Some? ==> Justified(forbidden, h, Object(body), [], error.value)
  {
    var walker := new Walker();
    error := walker.Visit(forbidden, h, Object(body), []);
    if error.None? {
      assert walker.visited - {} == walker.visited;
      forall id | ReachableFrom(h, Object(body), id)
        ensures !HasOffence(forbidden, h, id)
      {
        var trail :| Leads(h, Object(body), trail, id);
        SearchedHoldsAllReachable(forbidden, h, walker.visited, Object(body), trail, id);
        assert Searched(forbidden, h, id, |h[id]|, walker.visited);
      }
    } else {
      ReportLeadsToOffence(forbidden, h, body, error.value);
    }
  }

  /** `rejectVaultPlaintextFields`: the search under the case-insensitive list of forbidden names. */
  method RejectVaultPlaintextFields(lower: Text -> Text, h: Heap, body: nat) returns (error: Option<Report>)
    requires Closed(h) && body in h
    ensures error.None? <==> forall id | ReachableFrom(h, Object(body), id) :: !HasOffence(name => IsForbidden(lower, name), h, id)
    ensures error.Some? ==> Justified(name => IsForbidden(lower, name), h, Object(body), [], error.value)
  {
    error := SearchGraph(name => IsForbidden(lower, name), h, body);
  }

  /** A justified report can be followed: its path spells out the trail, and the trail ends at the offence. */
  lemma ReportLeadsToOffence(forbidden: Rule, h: Heap, body: nat, r: Report)
    requires Justified(forbidden, h, Object(body), [], r)
    ensures exists trail, id: nat :: ReachableFrom(h, Object(body), id) && HasOffence(forbidden, h, id)
                                     && Leads(h, Object(body), trail, id) && r.path == PathOf([], trail + [r.field])
  {
    var trail, id: nat, i: nat :| Justifies(forbidden, h, Object(body), [], r, trail, id, i);
    PathSnoc([], trail, r.field);
    assert Leads(h, Object(body), trail, id) && ReachableFrom(h, Object(body), id) && HasOffence(forbidden, h, id);
  }

  lemma {:induction false} PathSnoc(path: Text, trail: seq<Text>, name: Text)
    ensures PathOf(path, trail + [name]) == FieldPath(PathOf(path, trail), name)
    decreases |trail|
  {
    if trail == [] {
      assert trail + [name] == [name] && [name][1..] == [];
    } else {
      assert (trail + [name])[0] == trail[0] && (trail + [name])[1..] == trail[1..] + [name];
      PathSnoc(FieldPath(path, trail[0]), trail[1..], name);
    }
  }
}
