/** Dotted keys and the paths they stand for: `key.split(".")` and joining with dots. */
module DottedKeys {

  type Path = seq<string>

  function Split(s: string): (p: Path)
    ensures p != []
  {
    if s == [] then [""]
    else
      var rest := Split(s[1..]);
      if s[0] == '.' then [""] + rest else [[s[0]] + rest[0]] + rest[1..]
  }

  function Join(p: Path): string {
    if p == [] then ""
    else if |p| == 1 then p[0]
    else p[0] + ['.'] + Join(p[1..])
  }

  predicate DotFree(s: string) { '.' !in s }

  ghost predicate DotFreePath(p: Path) { forall i :: 0 <= i < |p| ==> DotFree(p[i]) }

  lemma {:induction false} SplitAtDot(head: string, s: string)
    requires DotFree(head)
    ensures Split(head + ['.'] + s) == [head] + Split(s)
  {
    var all := head + ['.'] + s;
    if head == [] {
      assert all[1..] == s;
    } else {
      assert head[0] in head;
      assert all[1..] == head[1..] + ['.'] + s;
      SplitAtDot(head[1..], s);
      assert [head[0]] + head[1..] == head;
    }
  }

  lemma {:induction false} SplitWithoutDot(s: string)
    requires DotFree(s)
    ensures Split(s) == [s]
  {
    if s != [] {
      assert s[0] in s && [s[0]] + s[1..] == s;
      SplitWithoutDot(s[1..]);
    }
  }

  /** Splitting undoes joining, on segments without dots. */
  lemma {:induction false} SplitJoin(p: Path)
    requires p != [] && DotFreePath(p)
    ensures Split(Join(p)) == p
  {
    if |p| == 1 {
      SplitWithoutDot(p[0]);
    } else {
      SplitJoin(p[1..]);
      SplitAtDot(p[0], Join(p[1..]));
    }
  }

  /** Joining undoes splitting, always. */
  lemma {:induction false} JoinSplit(s: string)
    ensures Join(Split(s)) == s
  {
    if s != [] {
      JoinSplit(s[1..]);
      var rest := Split(s[1..]);
      if s[0] == '.' {
        assert ([""] + rest)[1..] == rest;
      } else if |rest| > 1 {
        assert ([[s[0]] + rest[0]] + rest[1..])[1..] == rest[1..];
        assert [s[0]] + (rest[0] + ['.'] + Join(rest[1..])) == [s[0]] + rest[0] + ['.'] + Join(rest[1..]);
      }
    }
  }

  /** Paths without dots in their segments are determined by their joined key. */
  lemma JoinInjective(p: Path, q: Path)
    requires p != [] && q != [] && DotFreePath(p) && DotFreePath(q) && Join(p) == Join(q)
    ensures p == q
  {
    SplitJoin(p);
    SplitJoin(q);
  }

  /** `[A-Za-z0-9_-]+` */
  predicate ValidSegment(s: string) {
    s != [] && forall i :: 0 <= i < |s| ==>
      'a' <= s[i] <= 'z' || 'A' <= s[i] <= 'Z' || '0' <= s[i] <= '9' || s[i] == '_' || s[i] == '-'
  }

  predicate ValidPath(p: Path) { forall i :: 0 <= i < |p| ==> ValidSegment(p[i]) }

  lemma ValidIsDotFree(p: Path)
    requires ValidPath(p)
    ensures DotFreePath(p)
  {
  }
}
