/**
 Dot-terminated id paths: the strings stored in `parent_path`, and the string
 operations the menu code applies to them.
 */
module Paths {

  const DELIMITER: char := '.'

  /** An identifier that may appear in a path: non-empty and free of the delimiter. */
  predicate IsId(s: string) {
    s != "" && DELIMITER !in s
  }

  predicate AllIds(ids: seq<string>) {
    forall i :: 0 <= i < |ids| ==> IsId(ids[i])
  }

  /** The path that the code builds by appending `id + "."` once per ancestor, root first. */
  function Join(ids: seq<string>): string {
    if ids == [] then ""
    else Join(ids[..|ids| - 1]) + ids[|ids| - 1] + [DELIMITER]
  }

  /** Go's `strings.Split(s, ".")`. */
  function Split(s: string): seq<string> {
    var i := FirstDelimiter(s);
    if i == |s| then [s] else [s[..i]] + Split(s[i + 1..])
  }

  function FirstDelimiter(s: string): (i: nat)
    ensures i <= |s|
    ensures DELIMITER !in s[..i]
    ensures i < |s| ==> s[i] == DELIMITER
  {
    if s == "" || s[0] == DELIMITER then 0 else 1 + FirstDelimiter(s[1..])
  }

  /** The ids read back from a stored path: every non-empty piece of the split. */
  function Segments(path: string): seq<string> {
    NonEmpty(Split(path))
  }

  function NonEmpty(pieces: seq<string>): seq<string> {
    if pieces == [] then []
    else (if pieces[0] == "" then [] else [pieces[0]]) + NonEmpty(pieces[1..])
  }

  /** Go's `strings.Replace(s, old, new, 1)`. */
  function ReplaceFirst(s: string, old_: string, new_: string): string {
    if old_ <= s then new_ + s[|old_|..]
    else if s == "" then s
    else [s[0]] + ReplaceFirst(s[1..], old_, new_)
  }

  lemma {:induction false} JoinConcat(a: seq<string>, b: seq<string>)
    ensures Join(a + b) == Join(a) + Join(b)
  {
    if b == [] {
      assert a + b == a;
    } else {
      var n := |b| - 1;
      assert (a + b)[..|a + b| - 1] == a + b[..n];
      JoinConcat(a, b[..n]);
    }
  }

  lemma JoinCons(ids: seq<string>)
    requires ids != []
    ensures Join(ids) == ids[0] + [DELIMITER] + Join(ids[1..])
  {
    assert ids == [ids[0]] + ids[1..];
    JoinConcat([ids[0]], ids[1..]);
    assert Join([ids[0]]) == Join([]) + ids[0] + [DELIMITER];
  }

  lemma JoinSnoc(ids: seq<string>, id: string)
    ensures Join(ids + [id]) == Join(ids) + id + [DELIMITER]
  {
    assert (ids + [id])[..|ids|] == ids;
  }

  /** Two delimiter-free strings, each followed by a delimiter, agree as soon as one extends the other. */
  lemma {:induction false} SamePiece(a: string, b: string, x: string, y: string)
    requires DELIMITER !in a && DELIMITER !in b
    requires a + [DELIMITER] + x <= b + [DELIMITER] + y
    ensures a == b && x <= y
  {
    var s, t := a + [DELIMITER] + x, b + [DELIMITER] + y;
    assert s[|a|] == DELIMITER;
    assert forall i :: 0 <= i < |s| ==> s[i] == t[i];
    assert t[|b|] == DELIMITER;
    assert forall i :: 0 <= i < |a| ==> s[i] != DELIMITER && s[i] == a[i];
    assert forall i :: 0 <= i < |b| ==> t[i] != DELIMITER && t[i] == b[i];
    assert |a| == |b|;
    assert a == b;
    assert forall i :: 0 <= i < |x| ==> x[i] == s[|a| + 1 + i] && t[|a| + 1 + i] == y[i];
  }

  /** String prefix on joined paths is sequence prefix on the ids. */
  lemma {:induction false} PrefixIsSequencePrefix(a: seq<string>, b: seq<string>)
    requires AllIds(a) && AllIds(b)
    ensures Join(a) <= Join(b) <==> a <= b
  {
    if a == [] {
    } else if b == [] {
      JoinCons(a);
    } else {
      JoinCons(a);
      JoinCons(b);
      PrefixIsSequencePrefix(a[1..], b[1..]);
      if Join(a) <= Join(b) {
        SamePiece(a[0], b[0], Join(a[1..]), Join(b[1..]));
        assert a == [a[0]] + a[1..];
        assert b == [b[0]] + b[1..];
      }
      if a <= b {
        assert a[1..] <= b[1..];
        assert Join(a) <= Join(b);
      }
    }
  }

  lemma FirstDelimiterAfterId(h: string, rest: string)
    requires DELIMITER !in h
    ensures FirstDelimiter(h + [DELIMITER] + rest) == |h|
  {
    var s := h + [DELIMITER] + rest;
    var i := FirstDelimiter(s);
    assert s[|h|] == DELIMITER;
    assert forall j :: 0 <= j < |h| ==> s[j] == h[j];
    assert forall j :: 0 <= j < i ==> s[..i][j] == s[j];
  }

  lemma SplitCons(h: string, rest: string)
    requires IsId(h)
    ensures Split(h + [DELIMITER] + rest) == [h] + Split(rest)
  {
    var s := h + [DELIMITER] + rest;
    FirstDelimiterAfterId(h, rest);
    assert s[..|h|] == h && s[|h| + 1..] == rest;
  }

  lemma {:induction false} NonEmptyKeepsIds(ids: seq<string>)
    requires AllIds(ids)
    ensures NonEmpty(ids + [""]) == ids
  {
    if ids == [] {
      assert NonEmpty([""]) == NonEmpty([""][1..]);
    } else {
      NonEmptyKeepsIds(ids[1..]);
      assert (ids + [""])[1..] == ids[1..] + [""];
    }
  }

  lemma HeadAndRest(ids: seq<string>, last: string)
    requires ids != []
    ensures [ids[0]] + (ids[1..] + [last]) == ids + [last]
  {
  }

  lemma {:induction false} SplitJoin(ids: seq<string>)
    requires AllIds(ids)
    ensures Split(Join(ids)) == ids + [""]
  {
    if ids == [] {
      assert Split("") == [""];
    } else {
      JoinCons(ids);
      SplitCons(ids[0], Join(ids[1..]));
      SplitJoin(ids[1..]);
      HeadAndRest(ids, "");
    }
  }

  /** Splitting undoes joining. */
  lemma SplitUndoesJoin(ids: seq<string>)
    requires AllIds(ids)
    ensures Segments(Join(ids)) == ids
  {
    SplitJoin(ids);
    NonEmptyKeepsIds(ids);
  }

  lemma TakeSnoc<T>(s: seq<T>, i: nat)
    requires i < |s|
    ensures s[..i + 1] == s[..i] + [s[i]]
  {
  }
}
