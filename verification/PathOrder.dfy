/** Paths and their order: component by component, each compared character by character. */
module PathOrder {

  type Path = seq<string>

  predicate NameLess(a: string, b: string) {
    if b == "" then false
    else if a == "" then true
    else a[0] < b[0] || (a[0] == b[0] && NameLess(a[1..], b[1..]))
  }

  predicate PathLess(p: Path, q: Path) {
    if q == [] then false
    else if p == [] then true
    else NameLess(p[0], q[0]) || (p[0] == q[0] && PathLess(p[1..], q[1..]))
  }

  lemma {:induction false} NameTransitive(a: string, b: string, c: string)
    requires NameLess(a, b) && NameLess(b, c)
    ensures NameLess(a, c)
  {
    if a != "" && a[0] == b[0] == c[0] {
      NameTransitive(a[1..], b[1..], c[1..]);
    }
  }

  lemma {:induction false} NameTrichotomy(a: string, b: string)
    ensures NameLess(a, b) || a == b || NameLess(b, a)
    ensures !(NameLess(a, b) && NameLess(b, a)) && !NameLess(a, a)
  {
    if a != "" && b != "" {
      NameTrichotomy(a[1..], b[1..]);
      if a[0] == b[0] && a[1..] == b[1..] {
        assert a == [a[0]] + a[1..] && b == [b[0]] + b[1..];
      }
    }
    if a != "" {
      NameTrichotomy(a[1..], a[1..]);
    }
  }

  /** The order on paths is a strict total order. */
  lemma {:induction false} PathTransitive(p: Path, q: Path, r: Path)
    requires PathLess(p, q) && PathLess(q, r)
    ensures PathLess(p, r)
  {
    if p != [] {
      if NameLess(p[0], q[0]) && NameLess(q[0], r[0]) {
        NameTransitive(p[0], q[0], r[0]);
      }
      if p[0] == q[0] == r[0] && PathLess(p[1..], q[1..]) && PathLess(q[1..], r[1..]) {
        PathTransitive(p[1..], q[1..], r[1..]);
      }
    }
  }

  lemma {:induction false} PathTrichotomy(p: Path, q: Path)
    ensures PathLess(p, q) || p == q || PathLess(q, p)
    ensures !(PathLess(p, q) && PathLess(q, p)) && !PathLess(p, p)
  {
    if p != [] && q != [] {
      NameTrichotomy(p[0], q[0]);
      PathTrichotomy(p[1..], q[1..]);
      if p[0] == q[0] && p[1..] == q[1..] {
        assert p == [p[0]] + p[1..] && q == [q[0]] + q[1..];
      }
    }
    if p != [] {
      NameTrichotomy(p[0], p[0]);
      PathTrichotomy(p[1..], p[1..]);
    }
  }

  // ----- what the order is -----

  /** The first place where two sequences differ is `j`. */
  ghost predicate DifferAt<T>(a: seq<T>, b: seq<T>, j: nat) {
    j < |a| && j < |b| && a[..j] == b[..j] && a[j] != b[j]
  }

  /** A proper prefix, or smaller in the first character that differs. */
  ghost predicate NamePrecedes(a: string, b: string) {
    a < b || exists j: nat :: DifferAt(a, b, j) && a[j] < b[j]
  }

  /** A proper prefix, or before in the first component that differs. */
  ghost predicate PathPrecedes(p: Path, q: Path) {
    p < q || exists j: nat :: DifferAt(p, q, j) && NamePrecedes(p[j], q[j])
  }

  lemma DifferLater<T>(a: seq<T>, b: seq<T>, j: nat)
    requires a != [] && b != [] && a[0] == b[0]
    ensures DifferAt(a[1..], b[1..], j) <==> DifferAt(a, b, j + 1)
    ensures a[1..] < b[1..] <==> a < b
  {
    assert a == [a[0]] + a[1..] && b == [b[0]] + b[1..];
    if j + 1 < |a| && j + 1 < |b| {
      assert a[..j + 1] == [a[0]] + a[1..][..j] && b[..j + 1] == [b[0]] + b[1..][..j];
      if a[..j + 1] == b[..j + 1] {
        assert a[..j + 1][1..] == a[1..][..j] && b[..j + 1][1..] == b[1..][..j];
      }
    }
    if a[1..] < b[1..] {
      assert forall i :: 0 <= i < |a| ==> a[i] == b[i] by {
        forall i | 0 <= i < |a|
          ensures a[i] == b[i]
        {
          assert i > 0 ==> a[i] == a[1..][i - 1] == b[1..][i - 1];
        }
      }
    }
  }

  lemma {:induction false} NameLessIs(a: string, b: string)
    ensures NameLess(a, b) <==> NamePrecedes(a, b)
  {
    if a != "" && b != "" {
      if a[0] == b[0] {
        NameLessIs(a[1..], b[1..]);
        forall j: nat {
          DifferLater(a, b, j);
        }
        if NamePrecedes(a, b) && !(a < b) {
          var j: nat :| DifferAt(a, b, j) && a[j] < b[j];
          DifferLater(a, b, j - 1);
        }
        if NamePrecedes(a[1..], b[1..]) && !(a[1..] < b[1..]) {
          var j: nat :| DifferAt(a[1..], b[1..], j) && a[1..][j] < b[1..][j];
          assert DifferAt(a, b, j + 1) && a[j + 1] < b[j + 1];
        }
      } else {
        assert DifferAt(a, b, 0);
        if j: nat :| DifferAt(a, b, j) && a[j] < b[j] {
          assert j > 0 ==> a[..j][0] == b[..j][0];
        }
      }
    }
  }

  /** Earlier is: a proper prefix, or before in the first component that differs. */
  lemma {:induction false} PathLessIs(p: Path, q: Path)
    ensures PathLess(p, q) <==> PathPrecedes(p, q)
  {
    hide NamePrecedes, NameLess;
    if p != [] && q != [] {
      NameLessIs(p[0], q[0]);
      NameTrichotomy(p[0], p[0]);
      if p[0] == q[0] {
        PathLessIs(p[1..], q[1..]);
        forall j: nat {
          DifferLater(p, q, j);
        }
        if PathPrecedes(p, q) && !(p < q) {
          var j: nat :| DifferAt(p, q, j) && NamePrecedes(p[j], q[j]);
          DifferLater(p, q, j - 1);
        }
        if PathPrecedes(p[1..], q[1..]) && !(p[1..] < q[1..]) {
          var j: nat :| DifferAt(p[1..], q[1..], j) && NamePrecedes(p[1..][j], q[1..][j]);
          assert DifferAt(p, q, j + 1) && NamePrecedes(p[j + 1], q[j + 1]);
        }
      } else {
        assert DifferAt(p, q, 0);
        if j: nat :| DifferAt(p, q, j) && NamePrecedes(p[j], q[j]) {
          assert j > 0 ==> p[..j][0] == q[..j][0];
        }
      }
    }
  }
}
