/**
 Strings outside a finite set, and the primary-key order by which `First` picks a row.
 */
module Identifiers {
  import opened Paths

  ghost function LongerThanAll(used: set<string>): (id: string)
    ensures IsId(id) && id !in used
  {
    var n := MaxLength(used);
    seq(n + 1, i => 'x')
  }

  ghost function MaxLength(ids: set<string>): (n: nat)
    ensures forall id :: id in ids ==> |id| <= n
  {
    if ids == {} then 0
    else
      var id :| id in ids;
      var n := MaxLength(ids - {id});
      if n < |id| then |id| else n
  }

  /** Lexicographic order of strings. */
  predicate Leq(a: string, b: string) {
    a == "" || (b != "" && (a[0] < b[0] || (a[0] == b[0] && Leq(a[1..], b[1..]))))
  }

  lemma {:induction false} LeqTotal(a: string, b: string)
    ensures Leq(a, b) || Leq(b, a)
    ensures Leq(a, b) && Leq(b, a) ==> a == b
  {
    if a != "" && b != "" {
      LeqTotal(a[1..], b[1..]);
      assert a == [a[0]] + a[1..] && b == [b[0]] + b[1..];
    }
  }

  lemma {:induction false} LeqTransitive(a: string, b: string, c: string)
    requires Leq(a, b) && Leq(b, c)
    ensures Leq(a, c)
  {
    if a != "" && a[0] == b[0] == c[0] {
      LeqTransitive(a[1..], b[1..], c[1..]);
    }
  }

  /** A string comes before another one if it begins it, or is smaller at the first place where they differ. */
  lemma {:induction false} LeqSays(a: string, b: string)
    ensures Leq(a, b) <==> a <= b || exists i :: 0 <= i < |a| && i < |b| && a[..i] == b[..i] && a[i] < b[i]
  {
    if a != "" && b != "" {
      if a[0] == b[0] {
        LeqSays(a[1..], b[1..]);
        assert a == [a[0]] + a[1..] && b == [b[0]] + b[1..];
        if i :| 0 <= i < |a[1..]| && i < |b[1..]| && a[1..][..i] == b[1..][..i] && a[1..][i] < b[1..][i] {
          assert a[..i + 1] == [a[0]] + a[1..][..i] && b[..i + 1] == [b[0]] + b[1..][..i];
          assert a[i + 1] < b[i + 1];
        }
        if i :| 0 <= i < |a| && i < |b| && a[..i] == b[..i] && a[i] < b[i] {
          assert i > 0;
          assert a[1..][..i - 1] == a[..i][1..] && b[1..][..i - 1] == b[..i][1..];
          assert a[1..][i - 1] < b[1..][i - 1];
        }
      } else if a[0] < b[0] {
        assert a[..0] == b[..0];
      }
    }
  }

  predicate IsLeast(ids: set<string>, id: string) {
    id in ids && forall x :: x in ids ==> Leq(id, x)
  }

  lemma LeastExists(ids: set<string>) returns (id: string)
    requires ids != {}
    ensures IsLeast(ids, id)
  {
    id :| id in ids;
    LeqTotal(id, id);
    if ids != {id} {
      var rest := LeastExists(ids - {id});
      LeqTotal(id, rest);
      forall x | x in ids ensures Leq(if Leq(id, rest) then id else rest, x) {
        if x != id && Leq(id, rest) { LeqTransitive(id, rest, x); }
      }
      if !Leq(id, rest) { id := rest; }
    }
  }

  lemma LeastUnique(ids: set<string>, a: string, b: string)
    requires IsLeast(ids, a) && IsLeast(ids, b)
    ensures a == b
  {
    LeqTotal(a, b);
  }

  /** The id of the first row in primary-key order. */
  function Least(ids: set<string>): (id: string)
    requires ids != {}
    ensures IsLeast(ids, id)
  {
    assert exists x :: IsLeast(ids, x) by { var x := LeastExists(ids); }
    assert forall x, y :: IsLeast(ids, x) && IsLeast(ids, y) ==> x == y by {
      forall x, y | IsLeast(ids, x) && IsLeast(ids, y) ensures x == y { LeastUnique(ids, x, y); }
    }
    var id :| id in ids && IsLeast(ids, id);
    id
  }
}
