/**
 * The POSIX path helpers the backup script uses: `str.rstrip("/")`,
 * `os.path.basename` and two-argument `os.path.join`.
 */
module Paths {

  /** `p.rstrip("/")`: drop every trailing slash. */
  function RStripSlash(p: string): string
  {
    if p != [] && p[|p| - 1] == '/' then RStripSlash(p[..|p| - 1]) else p
  }

  /** `rstrip("/")` keeps a prefix that does not end in a slash, and what it drops is all slashes. */
  lemma {:induction false} RStripSlashDrops(p: string)
    ensures RStripSlash(p) <= p
    ensures RStripSlash(p) == [] || RStripSlash(p)[|RStripSlash(p)| - 1] != '/'
    ensures forall i :: |RStripSlash(p)| <= i < |p| ==> p[i] == '/'
  {
    if p != [] && p[|p| - 1] == '/' {
      var q := p[..|p| - 1];
      RStripSlashDrops(q);
      assert forall i :: 0 <= i < |q| ==> q[i] == p[i];
    }
  }

  /** `os.path.basename(p)`: the text after the last slash (all of `p` when it has none). */
  function Basename(p: string): (r: string)
    ensures '/' !in r
  {
    if p == [] || p[|p| - 1] == '/' then [] else Basename(p[..|p| - 1]) + [p[|p| - 1]]
  }

  /** The basename is the suffix of `p` after its last slash (all of `p` when it has none). */
  lemma {:induction false} BasenameSuffix(p: string)
    ensures |Basename(p)| <= |p| && p[|p| - |Basename(p)|..] == Basename(p)
    ensures |Basename(p)| == |p| || p[|p| - |Basename(p)| - 1] == '/'
  {
    if p != [] && p[|p| - 1] != '/' {
      var q := p[..|p| - 1];
      BasenameSuffix(q);
      var r := Basename(p);
      assert r == Basename(q) + [p[|p| - 1]];
      assert p[|p| - |r|..] == q[|q| - |Basename(q)|..] + [p[|p| - 1]];
      if |Basename(q)| < |q| {
        assert p[|p| - |r| - 1] == q[|q| - |Basename(q)| - 1];
      }
    }
  }

  /** `os.path.join(a, b)` for two components. */
  function Join(a: string, b: string): string
  {
    if b != [] && b[0] == '/' then b
    else if a == [] || a[|a| - 1] == '/' then a + b
    else a + "/" + b
  }

  /** Concatenating slash-free strings gives a slash-free string. */
  lemma NoSlashAppend(a: string, b: string)
    requires '/' !in a && '/' !in b
    ensures '/' !in a + b
  {
  }

  /** The last component of a joined path is the slash-free component that was joined. */
  lemma BasenameOfJoin(a: string, b: string)
    requires '/' !in b
    ensures Basename(Join(a, b)) == b
  {
    var x := if a == [] || a[|a| - 1] == '/' then a else a + "/";
    assert Join(a, b) == x + b;
    assert x == [] || x[|x| - 1] == '/';
    BasenameAfterSlash(x, b);
  }

  lemma {:induction false} BasenameAfterSlash(x: string, y: string)
    requires '/' !in y
    requires x == [] || x[|x| - 1] == '/'
    ensures Basename(x + y) == y
  {
    if y != [] {
      var y' := y[..|y| - 1];
      assert (x + y)[..|x + y| - 1] == x + y';
      assert (x + y)[|x + y| - 1] == y[|y| - 1];
      BasenameAfterSlash(x, y');
      assert y == y' + [y[|y| - 1]];
    }
  }
}
