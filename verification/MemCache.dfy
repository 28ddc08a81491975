/**
 The memory cache: a flat store under `namespace + delimiter + key`, read as a store with two
 levels, and the namespaces for which that reading is right.
 */
module MemCache {
  import opened Wrappers

  /** A stored value; without a deadline it never expires. */
  datatype Item = Item(value: string, deadline: Option<int>)

  type Flat = map<string, Item>

  /** What the flat store is meant to be: values by namespace and key. */
  type TwoLevel = map<(string, string), Item>

  function GetKey(delimiter: string, ns: string, key: string): string {
    ns + delimiter + key
  }

  predicate Live(i: Item, now: int) {
    i.deadline.None? || now <= i.deadline.value
  }

  // ----- when keys tell namespaces apart -----

  /** No namespace, with the delimiter behind it, begins another one's keys. */
  ghost predicate PrefixFree(delimiter: string, namespaces: set<string>) {
    forall a, b :: a in namespaces && b in namespaces && a + delimiter <= b + delimiter ==> a == b
  }

  /** Two namespaces share a flat key exactly when one, with the delimiter, is a prefix of the other. */
  lemma CollisionIsPrefix(delimiter: string, a: string, b: string)
    ensures (exists k, l :: GetKey(delimiter, a, k) == GetKey(delimiter, b, l))
       <==> a + delimiter <= b + delimiter || b + delimiter <= a + delimiter
  {
    var p, q := a + delimiter, b + delimiter;
    if k, l :| GetKey(delimiter, a, k) == GetKey(delimiter, b, l) {
      assert p + k == q + l;
      assert (p + k)[..|p|] == p && (q + l)[..|q|] == q;
      if |p| <= |q| { assert q[..|p|] == (q + l)[..|p|]; } else { assert p[..|q|] == (p + k)[..|q|]; }
    }
    if p <= q {
      assert GetKey(delimiter, a, q[|p|..]) == GetKey(delimiter, b, "");
    }
    if q <= p {
      assert GetKey(delimiter, a, "") == GetKey(delimiter, b, p[|q|..]);
    }
  }

  /** A one-character delimiter that no namespace contains is enough; keys may contain it. */
  lemma AbsentDelimiterIsPrefixFree(delimiter: char, namespaces: set<string>)
    requires forall ns :: ns in namespaces ==> delimiter !in ns
    ensures PrefixFree([delimiter], namespaces)
  {
    forall a, b | a in namespaces && b in namespaces && a + [delimiter] <= b + [delimiter] ensures a == b {
      var p, q := a + [delimiter], b + [delimiter];
      assert q[|a|] == p[|a|] == delimiter;
      assert forall i :: 0 <= i < |b| ==> q[i] == b[i];
      assert |a| == |b|;
      assert a == p[..|a|] && b == q[..|b|];
    }
  }

  lemma KeysDiffer(delimiter: string, namespaces: set<string>, a: string, k: string, b: string, l: string)
    requires PrefixFree(delimiter, namespaces) && a in namespaces && b in namespaces
    ensures GetKey(delimiter, a, k) == GetKey(delimiter, b, l) <==> a == b && k == l
  {
    if GetKey(delimiter, a, k) == GetKey(delimiter, b, l) {
      CollisionIsPrefix(delimiter, a, b);
      var p := a + delimiter;
      assert k == GetKey(delimiter, a, k)[|p|..] && l == GetKey(delimiter, b, l)[|p|..];
    }
  }

  // ----- the store in place -----

  class Cache {
    const delimiter: string
    var items: Flat

    constructor (delimiter: string)
      ensures this.delimiter == delimiter && items == map[]
    {
      this.delimiter, items := delimiter, map[];
    }

    /** An expiration that is not positive means none. */
    method Set(ns: string, key: string, value: string, now: int, expiration: int)
      modifies this
      ensures items == old(items)[ns + delimiter + key :=
                                  Item(value, if expiration > 0 then Some(now + expiration) else None)]
    {
      items := items[GetKey(delimiter, ns, key) := NewItem(value, now, expiration)];
    }

    method Get(ns: string, key: string, now: int) returns (value: string, ok: bool)
      ensures ok <==> ns + delimiter + key in items &&
                      (items[ns + delimiter + key].deadline.None? || now <= items[ns + delimiter + key].deadline.value)
      ensures value == if ok then items[ns + delimiter + key].value else ""
    {
      var k := GetKey(delimiter, ns, key);
      if k in items && Live(items[k], now) { return items[k].value, true; }
      return "", false;
    }

    method Exists(ns: string, key: string, now: int) returns (ok: bool)
      ensures ok <==> ns + delimiter + key in items &&
                      (items[ns + delimiter + key].deadline.None? || now <= items[ns + delimiter + key].deadline.value)
    {
      var k := GetKey(delimiter, ns, key);
      ok := k in items && Live(items[k], now);
    }

    method Delete(ns: string, key: string)
      modifies this
      ensures items == old(items) - {ns + delimiter + key}
    {
      items := items - {GetKey(delimiter, ns, key)};
    }

    method GetAndDelete(ns: string, key: string, now: int) returns (value: string, ok: bool)
      modifies this
      ensures ok <==> ns + delimiter + key in old(items) &&
                      (old(items)[ns + delimiter + key].deadline.None?
                       || now <= old(items)[ns + delimiter + key].deadline.value)
      ensures value == if ok then old(items)[ns + delimiter + key].value else ""
      ensures items == if ok then old(items) - {ns + delimiter + key} else old(items)
    {
      value, ok := Get(ns, key, now);
      if ok { items := items - {GetKey(delimiter, ns, key)}; }
    }

    method Close()
      modifies this
      ensures items == map[]
    {
      items := map[];
    }

    /** Any operation, by the method that performs it. */
    method Perform(op: Op) returns (answer: Option<string>)
      modifies this
      ensures (items, answer) == FlatStep(delimiter, old(items), op)
    {
      answer := None;
      match op
      case OpSet(ns, key, value, now, expiration) => Set(ns, key, value, now, expiration);
      case OpGet(ns, key, now) =>
        var value, ok := Get(ns, key, now);
        if ok { answer := Some(value); }
      case OpDelete(ns, key) => Delete(ns, key);
      case OpGetAndDelete(ns, key, now) =>
        var value, ok := GetAndDelete(ns, key, now);
        if ok { answer := Some(value); }
      case OpClose => Close();
    }

    /**
     Calls `fn` on the live entries of a namespace in some order, prefix stripped, until it returns false:
     `visited` are the calls made. Without a stop every live key is visited, each once.
     */
    method Iterator(ns: string, now: int, fn: (string, string) -> bool) returns (visited: seq<(string, string)>)
      ensures forall i :: 0 <= i < |visited| ==> Entry(items, delimiter, ns, now, visited[i])
      ensures forall i, j :: 0 <= i < j < |visited| ==> visited[i].0 != visited[j].0
      ensures forall i :: 0 <= i < |visited| - 1 ==> fn(visited[i].0, visited[i].1)
      ensures visited == [] || fn(visited[|visited| - 1].0, visited[|visited| - 1].1) ==>
                forall key, value :: Entry(items, delimiter, ns, now, (key, value)) ==> (key, value) in visited
    {
      var prefix := GetKey(delimiter, ns, "");
      var rest := items.Keys;
      visited := [];
      while rest != {}
        invariant rest <= items.Keys
        invariant forall i :: 0 <= i < |visited| ==>
                    Entry(items, delimiter, ns, now, visited[i]) && GetKey(delimiter, ns, visited[i].0) !in rest
        invariant forall i, j :: 0 <= i < j < |visited| ==> visited[i].0 != visited[j].0
        invariant forall i :: 0 <= i < |visited| ==> fn(visited[i].0, visited[i].1)
        invariant forall key, value ::
                    Entry(items, delimiter, ns, now, (key, value)) && GetKey(delimiter, ns, key) !in rest ==>
                        (key, value) in visited
        decreases rest
      {
        var k :| k in rest;
        rest := rest - {k};
        if prefix <= k {
          var key := k[|prefix|..];
          assert GetKey(delimiter, ns, key) == prefix + key == k;
          if Live(items[k], now) {
            visited := visited + [(key, items[k].value)];
            if !fn(key, items[k].value) { return; }
          }
          assert forall other :: GetKey(delimiter, ns, other) == k ==> other == k[|prefix|..];
        } else {
          assert forall other :: GetKey(delimiter, ns, other) == prefix + other;
          assert forall other :: prefix <= GetKey(delimiter, ns, other);
        }
      }
    }
  }

  /** A live entry of the namespace. */
  ghost predicate Entry(items: Flat, delimiter: string, ns: string, now: int, e: (string, string)) {
    var k := GetKey(delimiter, ns, e.0);
    k in items && Live(items[k], now) && items[k].value == e.1
  }

  /** An expiration that is not positive means none. */
  function NewItem(value: string, now: int, expiration: int): Item {
    Item(value, if expiration > 0 then Some(now + expiration) else None)
  }

  // ----- the flat store refines the two-level one -----

  datatype Op =
    | OpSet(ns: string, key: string, value: string, now: int, expiration: int)
    | OpGet(ns: string, key: string, now: int)
    | OpDelete(ns: string, key: string)
    | OpGetAndDelete(ns: string, key: string, now: int)
    | OpClose

  predicate Uses(op: Op, namespaces: set<string>) {
    op.OpClose? || op.ns in namespaces
  }

  /** One operation on the flat store: the new store and the answer. */
  function FlatStep(delimiter: string, items: Flat, op: Op): (Flat, Option<string>) {
    match op
    case OpSet(ns, key, value, now, expiration) =>
      (items[GetKey(delimiter, ns, key) := NewItem(value, now, expiration)], None)
    case OpGet(ns, key, now) =>
      var k := GetKey(delimiter, ns, key);
      (items, if k in items && Live(items[k], now) then Some(items[k].value) else None)
    case OpDelete(ns, key) => (items - {GetKey(delimiter, ns, key)}, None)
    case OpGetAndDelete(ns, key, now) =>
      var k := GetKey(delimiter, ns, key);
      if k in items && Live(items[k], now) then (items - {k}, Some(items[k].value)) else (items, None)
    case OpClose => (map[], None)
  }

  /** What it is meant to do, on namespaces and keys; a value without a deadline, or before it, is there. */
  function TwoLevelStep(model: TwoLevel, op: Op): (TwoLevel, Option<string>) {
    match op
    case OpSet(ns, key, value, now, expiration) =>
      (model[(ns, key) := Item(value, if expiration > 0 then Some(now + expiration) else None)], None)
    case OpGet(ns, key, now) => (model, ValueAt(model, ns, key, now))
    case OpDelete(ns, key) => (Without(model, ns, key), None)
    case OpGetAndDelete(ns, key, now) =>
      (if ValueAt(model, ns, key, now).None? then model else Without(model, ns, key), ValueAt(model, ns, key, now))
    case OpClose => (map[], None)
  }

  function Without(model: TwoLevel, ns: string, key: string): TwoLevel {
    map e | e in model && e != (ns, key) :: model[e]
  }

  function ValueAt(model: TwoLevel, ns: string, key: string, now: int): Option<string> {
    if (ns, key) !in model then None
    else
      match model[(ns, key)]
      case Item(value, None) => Some(value)
      case Item(value, Some(deadline)) => if now <= deadline then Some(value) else None
  }

  // ----- what callers rely on -----

  function AfterSet(
      delimiter: string, items: Flat, ns: string, key: string, value: string, now: int, expiration: int): Flat {
    FlatStep(delimiter, items, OpSet(ns, key, value, now, expiration)).0
  }

  function Answer(delimiter: string, items: Flat, ns: string, key: string, now: int): Option<string> {
    FlatStep(delimiter, items, OpGet(ns, key, now)).1
  }

  /** A value set is read until its deadline and not after it, and for good without one; what else is read stays. */
  lemma SetThenGet(
      delimiter: string, namespaces: set<string>, items: Flat, ns: string, key: string, value: string, now: int,
      expiration: int, ns': string, key': string, later: int)
    requires PrefixFree(delimiter, namespaces) && ns in namespaces && ns' in namespaces
    ensures var after := AfterSet(delimiter, items, ns, key, value, now, expiration);
            Answer(delimiter, after, ns', key', later) ==
              if (ns', key') != (ns, key) then Answer(delimiter, items, ns', key', later)
              else if expiration <= 0 || later <= now + expiration then Some(value) else None
  {
    KeysDiffer(delimiter, namespaces, ns, key, ns', key');
  }

  /** What was deleted is read no more; what else is read stays. */
  lemma DeleteThenGet(
      delimiter: string, namespaces: set<string>, items: Flat, ns: string, key: string, ns': string, key': string,
      now: int)
    requires PrefixFree(delimiter, namespaces) && ns in namespaces && ns' in namespaces
    ensures Answer(delimiter, FlatStep(delimiter, items, OpDelete(ns, key)).0, ns', key', now) ==
              if (ns', key') == (ns, key) then None else Answer(delimiter, items, ns', key', now)
  {
    KeysDiffer(delimiter, namespaces, ns, key, ns', key');
  }

  /** Taking a value answers what reading it would; it is read no more, and what else is read stays. */
  lemma TakeThenGet(
      delimiter: string, namespaces: set<string>, items: Flat, ns: string, key: string, now: int, ns': string,
      key': string, later: int)
    requires PrefixFree(delimiter, namespaces) && ns in namespaces && ns' in namespaces && now <= later
    ensures var (after, answer) := FlatStep(delimiter, items, OpGetAndDelete(ns, key, now));
            && answer == Answer(delimiter, items, ns, key, now)
            && Answer(delimiter, after, ns', key', later) ==
                 if (ns', key') == (ns, key) then None else Answer(delimiter, items, ns', key', later)
  {
    KeysDiffer(delimiter, namespaces, ns, key, ns', key');
  }

  /** The flat store holds the two-level one, and nothing else. */
  ghost predicate Represents(delimiter: string, namespaces: set<string>, flat: Flat, model: TwoLevel) {
    && (forall e :: e in model ==> e.0 in namespaces)
    && (forall e :: e in model ==> GetKey(delimiter, e.0, e.1) in flat && flat[GetKey(delimiter, e.0, e.1)] == model[e])
    && (forall k :: k in flat ==> exists e :: e in model && GetKey(delimiter, e.0, e.1) == k)
  }

  lemma KeyRepresented(delimiter: string, namespaces: set<string>, flat: Flat, model: TwoLevel, ns: string, key: string)
    requires PrefixFree(delimiter, namespaces) && Represents(delimiter, namespaces, flat, model) && ns in namespaces
    ensures GetKey(delimiter, ns, key) in flat <==> (ns, key) in model
    ensures (ns, key) in model ==> flat[GetKey(delimiter, ns, key)] == model[(ns, key)]
  {
    if GetKey(delimiter, ns, key) in flat {
      var e :| e in model && GetKey(delimiter, e.0, e.1) == GetKey(delimiter, ns, key);
      KeysDiffer(delimiter, namespaces, e.0, e.1, ns, key);
      assert e == (ns, key);
    }
  }

  lemma AddedEntry(
      delimiter: string, namespaces: set<string>, flat: Flat, model: TwoLevel, ns: string, key: string, i: Item,
      e: (string, string))
    requires PrefixFree(delimiter, namespaces) && Represents(delimiter, namespaces, flat, model) && ns in namespaces
    requires e in model[(ns, key) := i]
    ensures e.0 in namespaces
    ensures var flat' := flat[GetKey(delimiter, ns, key) := i];
            GetKey(delimiter, e.0, e.1) in flat' && flat'[GetKey(delimiter, e.0, e.1)] == model[(ns, key) := i][e]
  {
    if e != (ns, key) {
      OthersStay(delimiter, namespaces, flat, model, ns, key, e);
    }
  }

  lemma AddedKey(
      delimiter: string, namespaces: set<string>, flat: Flat, model: TwoLevel, ns: string, key: string, i: Item,
      l: string)
    requires Represents(delimiter, namespaces, flat, model) && l in flat[GetKey(delimiter, ns, key) := i]
    ensures exists e :: e in model[(ns, key) := i] && GetKey(delimiter, e.0, e.1) == l
  {
    var model' := model[(ns, key) := i];
    if l == GetKey(delimiter, ns, key) {
      assert (ns, key) in model';
    } else {
      var e :| e in model && GetKey(delimiter, e.0, e.1) == l;
      assert e in model';
    }
  }

  lemma AddRepresented(
      delimiter: string, namespaces: set<string>, flat: Flat, model: TwoLevel, ns: string, key: string, i: Item)
    requires PrefixFree(delimiter, namespaces) && Represents(delimiter, namespaces, flat, model) && ns in namespaces
    ensures Represents(delimiter, namespaces, flat[GetKey(delimiter, ns, key) := i], model[(ns, key) := i])
  {
    var flat', model' := flat[GetKey(delimiter, ns, key) := i], model[(ns, key) := i];
    forall e | e in model'
      ensures e.0 in namespaces && GetKey(delimiter, e.0, e.1) in flat'
          && flat'[GetKey(delimiter, e.0, e.1)] == model'[e]
    {
      AddedEntry(delimiter, namespaces, flat, model, ns, key, i, e);
    }
    forall l | l in flat' ensures exists e :: e in model' && GetKey(delimiter, e.0, e.1) == l {
      AddedKey(delimiter, namespaces, flat, model, ns, key, i, l);
    }
  }

  lemma OthersStay(
      delimiter: string, namespaces: set<string>, flat: Flat, model: TwoLevel, ns: string, key: string,
      e: (string, string))
    requires PrefixFree(delimiter, namespaces) && Represents(delimiter, namespaces, flat, model) && ns in namespaces
    requires e in model && e != (ns, key)
    ensures e.0 in namespaces && GetKey(delimiter, e.0, e.1) in flat - {GetKey(delimiter, ns, key)}
    ensures flat[GetKey(delimiter, e.0, e.1)] == model[e]
  {
    assert e == (e.0, e.1);
    KeysDiffer(delimiter, namespaces, e.0, e.1, ns, key);
  }

  lemma RemoveRepresented(
      delimiter: string, namespaces: set<string>, flat: Flat, model: TwoLevel, ns: string, key: string)
    requires PrefixFree(delimiter, namespaces) && Represents(delimiter, namespaces, flat, model) && ns in namespaces
    ensures Represents(delimiter, namespaces, flat - {GetKey(delimiter, ns, key)}, Without(model, ns, key))
  {
    var k := GetKey(delimiter, ns, key);
    var flat', model' := flat - {k}, Without(model, ns, key);
    forall e | e in model'
      ensures e.0 in namespaces && GetKey(delimiter, e.0, e.1) in flat'
              && flat'[GetKey(delimiter, e.0, e.1)] == model'[e]
    {
      OthersStay(delimiter, namespaces, flat, model, ns, key, e);
    }
    forall l | l in flat' ensures exists e :: e in model' && GetKey(delimiter, e.0, e.1) == l {
      var e :| e in model && GetKey(delimiter, e.0, e.1) == l;
      assert e != (ns, key);
      assert e in model';
    }
  }

  /** One operation: the same answer, and the stores still correspond. */
  lemma StepRefines(delimiter: string, namespaces: set<string>, flat: Flat, model: TwoLevel, op: Op)
    requires PrefixFree(delimiter, namespaces) && Represents(delimiter, namespaces, flat, model) && Uses(op, namespaces)
    ensures FlatStep(delimiter, flat, op).1 == TwoLevelStep(model, op).1
    ensures Represents(delimiter, namespaces, FlatStep(delimiter, flat, op).0, TwoLevelStep(model, op).0)
  {
    match op
    case OpSet(ns, key, value, now, expiration) =>
      AddRepresented(delimiter, namespaces, flat, model, ns, key, NewItem(value, now, expiration));
    case OpGet(ns, key, now) => AnswerRefines(delimiter, namespaces, flat, model, ns, key, now);
    case OpDelete(ns, key) => RemoveRepresented(delimiter, namespaces, flat, model, ns, key);
    case OpGetAndDelete(ns, key, now) =>
      AnswerRefines(delimiter, namespaces, flat, model, ns, key, now);
      RemoveRepresented(delimiter, namespaces, flat, model, ns, key);
    case OpClose =>
  }

  lemma AnswerRefines(
      delimiter: string, namespaces: set<string>, flat: Flat, model: TwoLevel, ns: string, key: string, now: int)
    requires PrefixFree(delimiter, namespaces) && Represents(delimiter, namespaces, flat, model) && ns in namespaces
    ensures Answer(delimiter, flat, ns, key, now) == ValueAt(model, ns, key, now)
  {
    KeyRepresented(delimiter, namespaces, flat, model, ns, key);
  }

  function FlatRun(delimiter: string, items: Flat, ops: seq<Op>): (Flat, seq<Option<string>>)
    decreases |ops|
  {
    if ops == [] then (items, [])
    else
      var (next, answer) := FlatStep(delimiter, items, ops[0]);
      var (last, answers) := FlatRun(delimiter, next, ops[1..]);
      (last, [answer] + answers)
  }

  function TwoLevelRun(items: TwoLevel, ops: seq<Op>): (TwoLevel, seq<Option<string>>)
    decreases |ops|
  {
    if ops == [] then (items, [])
    else
      var (next, answer) := TwoLevelStep(items, ops[0]);
      var (last, answers) := TwoLevelRun(next, ops[1..]);
      (last, [answer] + answers)
  }

  /** Over any sequence of operations in prefix-free namespaces the flat store answers like the two-level one. */
  lemma {:induction false} RunRefines(
      delimiter: string, namespaces: set<string>, flat: Flat, model: TwoLevel, ops: seq<Op>)
    requires PrefixFree(delimiter, namespaces) && Represents(delimiter, namespaces, flat, model)
    requires forall i :: 0 <= i < |ops| ==> Uses(ops[i], namespaces)
    ensures FlatRun(delimiter, flat, ops).1 == TwoLevelRun(model, ops).1
    ensures Represents(delimiter, namespaces, FlatRun(delimiter, flat, ops).0, TwoLevelRun(model, ops).0)
    decreases |ops|
  {
    if ops != [] {
      StepRefines(delimiter, namespaces, flat, model, ops[0]);
      RunRefines(delimiter, namespaces, FlatStep(delimiter, flat, ops[0]).0, TwoLevelStep(model, ops[0]).0, ops[1..]);
    }
  }

  /** In namespaces that share a key the flat store does not: what one of them stores the other one reads. */
  lemma PrefixFreeIsNeeded(delimiter: string, namespaces: set<string>)
    requires !PrefixFree(delimiter, namespaces)
    ensures exists ops: seq<Op> ::
              && (forall i :: 0 <= i < |ops| ==> Uses(ops[i], namespaces))
              && FlatRun(delimiter, map[], ops).1 != TwoLevelRun(map[], ops).1
  {
    var a, b :| a in namespaces && b in namespaces && a + delimiter <= b + delimiter && a != b;
    CollisionIsPrefix(delimiter, a, b);
    var k, l :| GetKey(delimiter, a, k) == GetKey(delimiter, b, l);
    var put, get := OpSet(a, k, "v", 0, 0), OpGet(b, l, 0);
    var ops := [put, get];
    assert ops[1..] == [get] && ops[1..][1..] == [];
    var flat := FlatStep(delimiter, map[], put).0;
    var model := TwoLevelStep(map[], put).0;
    assert FlatStep(delimiter, flat, get).1 == Some("v");
    assert (b, l) !in model;
    assert TwoLevelStep(model, get).1 == None;
    assert FlatRun(delimiter, flat, [get]).1[0] == Some("v");
    assert TwoLevelRun(model, [get]).1[0] == None;
    assert FlatRun(delimiter, map[], ops).1[1] == Some("v");
    assert TwoLevelRun(map[], ops).1[1] == None;
  }

  /** A full iteration over a namespace lists exactly the live keys that the two-level store has there. */
  lemma IterationIsNamespace(
      delimiter: string, namespaces: set<string>, flat: Flat, model: TwoLevel, ns: string, now: int, key: string,
      value: string)
    requires PrefixFree(delimiter, namespaces) && Represents(delimiter, namespaces, flat, model) && ns in namespaces
    ensures Entry(flat, delimiter, ns, now, (key, value))
       <==> (ns, key) in model && Live(model[(ns, key)], now) && model[(ns, key)].value == value
  {
    KeyRepresented(delimiter, namespaces, flat, model, ns, key);
  }
}
