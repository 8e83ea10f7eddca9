/**
 * The materialized path of a location: the ids of its ancestors from the
 * root down, ending in its own id. The `path` column stores it as text with
 * the ids joined by '.'; the model keeps the sequence of ids and `Join`
 * gives the stored text. The lemmas below show that the two textual
 * operations the service relies on, the subtree test `path LIKE 'p.%'` and
 * the replacement of the leading `p.`, are the sequence operations
 * `Extends` and `Rebase` once ids are non-empty and dot-free.
 */
module MaterializedPath {

  /** An id as the store generates it (a UUID): non-empty, without the '.' separator. */
  predicate ValidId(s: string)
  {
    |s| > 0 && forall i :: 0 <= i < |s| ==> s[i] != '.'
  }

  type Id = s: string | ValidId(s) witness "0"

  /** The ids from a root down to the node itself. */
  type Path = seq<Id>

  /** The text of the `path` column. */
  function Join(p: Path): string
  {
    if |p| == 0 then ""
    else if |p| == 1 then p[0]
    else p[0] + "." + Join(p[1..])
  }

  predicate StartsWith(s: string, prefix: string)
  {
    |prefix| <= |s| && s[..|prefix|] == prefix
  }

  predicate IsPrefix(a: Path, b: Path)
  {
    |a| <= |b| && b[..|a|] == a
  }

  /** `b` lies strictly below `a`: the sequence form of `b LIKE '<a>.%'`. */
  predicate Extends(a: Path, b: Path)
  {
    0 < |a| < |b| && b[..|a|] == a
  }

  /**
   * `p` with its leading `oldPrefix` replaced by `newPrefix`; the ids below it
   * are kept. On a path strictly below `oldPrefix` the stored text becomes
   * `newPrefix.` followed by the text that followed `oldPrefix.`.
   */
  function Rebase(p: Path, oldPrefix: Path, newPrefix: Path): (r: Path)
    requires IsPrefix(oldPrefix, p)
    ensures IsPrefix(newPrefix, r)
    ensures r[|newPrefix|..] == p[|oldPrefix|..]
    ensures Extends(oldPrefix, p) && |newPrefix| > 0 ==>
      Join(r) == Join(newPrefix) + "." + Join(p[|oldPrefix|..])
  {
    var below := p[|oldPrefix|..];
    if Extends(oldPrefix, p) && |newPrefix| > 0 then
      JoinConcat(newPrefix, below);
      newPrefix + below
    else
      newPrefix + below
  }

  /** The text of a path starts with its first id, followed by '.' when more ids follow. */
  lemma JoinHead(p: Path)
    requires |p| > 0
    ensures |Join(p)| >= |p[0]|
    ensures Join(p)[0] == p[0][0]
    ensures |p| == 1 ==> Join(p) == p[0]
    ensures |p| > 1 ==> Join(p) == p[0] + "." + Join(p[1..])
  {
  }

  /** Joining two non-empty paths puts one separator between their texts. */
  lemma {:induction false} JoinConcat(a: Path, r: Path)
    requires |a| > 0 && |r| > 0
    ensures Join(a + r) == Join(a) + "." + Join(r)
    decreases |a|
  {
    assert (a + r)[0] == a[0];
    if |a| == 1 {
      assert (a + r)[1..] == r;
    } else {
      assert (a + r)[1..] == a[1..] + r;
      JoinConcat(a[1..], r);
    }
  }

  /** The child path `parent.path + [id]` is stored as the text `${parent.path}.${id}`. */
  lemma ChildPathText(parent: Path, id: Id)
    requires |parent| > 0
    ensures Join(parent + [id]) == Join(parent) + "." + id
    ensures Join([id]) == id
  {
    JoinConcat(parent, [id]);
  }

  /** Removing a common prefix keeps a prefix relation. */
  lemma PrefixCancel(u: string, v: string, w: string)
    requires StartsWith(u + v, u + w)
    ensures StartsWith(v, w)
  {
    assert (u + v)[..|u| + |w|] == u + w;
    assert (u + v)[|u|..|u| + |w|] == v[..|w|];
    assert (u + w)[|u|..] == w;
  }

  /** In `w + rest`, with `w` a dot-free id and `rest` empty or starting with '.', the first '.' is at `|w|`. */
  lemma FirstSeparator(w: Id, rest: string)
    requires rest == "" || rest[0] == '.'
    ensures forall i :: 0 <= i < |w| ==> (w + rest)[i] != '.'
    ensures |w + rest| > |w| ==> (w + rest)[|w|] == '.'
  {
  }

  /** Two dot-free ids that lead the same text, one of them followed by '.', are equal. */
  lemma SameLeadingId(x: Id, y: Id, rest: string)
    requires StartsWith(y + rest, x + ".")
    requires rest == "" || rest[0] == '.'
    ensures x == y
  {
    var u := y + rest;
    var v := x + ".";
    FirstSeparator(y, rest);
    FirstSeparator(x, ".");
    assert forall i :: 0 <= i < |v| ==> u[i] == v[i] by {
      forall i | 0 <= i < |v| ensures u[i] == v[i] {
        assert u[..|v|][i] == v[i];
      }
    }
    assert |x| == |y|;
    assert u[..|x|] == y;
    assert v[..|x|] == x;
    assert u[..|v|][..|x|] == u[..|x|];
  }

  /** The text test `path LIKE 'a.%'` implies that `a` is a proper prefix of `b`. */
  lemma {:induction false} LikeImpliesExtends(a: Path, b: Path)
    requires StartsWith(Join(b), Join(a) + ".")
    ensures Extends(a, b)
    decreases |a|
  {
    var pat := Join(a) + ".";
    assert |Join(b)| > 0;
    assert |b| > 0;
    JoinHead(b);
    assert Join(b)[0] == pat[0] by {
      assert Join(b)[..|pat|][0] == pat[0];
    }
    assert b[0][0] != '.';
    assert |a| > 0;
    JoinHead(a);
    var rest := if |b| == 1 then "" else "." + Join(b[1..]);
    assert Join(b) == b[0] + rest;
    var head := a[0] + ".";
    assert pat[..|head|] == head;
    assert Join(b)[..|pat|][..|head|] == Join(b)[..|head|];
    assert StartsWith(Join(b), head);
    SameLeadingId(a[0], b[0], rest);
    assert |b| > 1;
    assert Join(b) == head + Join(b[1..]);
    if |a| == 1 {
      assert b[..1] == [b[0]];
    } else {
      assert pat == head + (Join(a[1..]) + ".");
      PrefixCancel(head, Join(b[1..]), Join(a[1..]) + ".");
      LikeImpliesExtends(a[1..], b[1..]);
      assert b[..|a|] == [b[0]] + b[1..][..|a| - 1];
    }
  }

  /** The subtree test on the sequence is exactly the `LIKE 'a.%'` test on the stored text. */
  lemma ExtendsIsLike(a: Path, b: Path)
    ensures Extends(a, b) <==> StartsWith(Join(b), Join(a) + ".")
  {
    if Extends(a, b) {
      assert b == a + b[|a|..];
      JoinConcat(a, b[|a|..]);
    }
    if StartsWith(Join(b), Join(a) + ".") {
      LikeImpliesExtends(a, b);
    }
  }

  /** On a path below `a`, `Rebase` replaces the leading text `a.` by `n.` and keeps the text after it. */
  lemma RebaseReplacesPrefixText(p: Path, a: Path, n: Path)
    requires Extends(a, p) && |n| > 0
    ensures Join(p) == Join(a) + "." + Join(p[|a|..])
    ensures Join(Rebase(p, a, n)) == Join(n) + "." + Join(p[|a|..])
  {
    var below := p[|a|..];
    assert p == a + below;
    JoinConcat(a, below);
    JoinConcat(n, below);
  }
}
