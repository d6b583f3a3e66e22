/** Variable names of SECS-II item nodes, and sequences of them. */
module Names {

  /** A name is a base with the array-like suffixes it carries, or an ellipsis: "..." or "...[number]". */
  datatype Name = Var(base: string, indices: seq<nat>) | Dots | DotsAt(number: nat) {
    predicate IsEllipsis() {
      !Var?
    }

    predicate IsValidVarName() {
      Var? && IsIdentifier(base)
    }

    /** The name with the indices of `path` appended to its suffix. */
    function Suffixed(path: seq<nat>): Name
      requires Var?
    {
      Var(base, indices + path)
    }
  }

  predicate IsIdentifier(s: string) {
    && s != ""
    && (IsLetter(s[0]) || s[0] == '_')
    && forall i | 1 <= i < |s| :: IsLetter(s[i]) || s[i] == '_' || '0' <= s[i] <= '9'
  }

  predicate IsLetter(c: char) {
    'A' <= c <= 'Z' || 'a' <= c <= 'z'
  }

  /** No name occurs twice. */
  predicate Distinct(names: seq<Name>) {
    forall i, j | 0 <= i < j < |names| :: names[i] != names[j]
  }

  predicate Disjoint(a: seq<Name>, b: seq<Name>) {
    forall n | n in a :: n !in b
  }

  lemma DistinctConcat(a: seq<Name>, b: seq<Name>)
    ensures Distinct(a + b) <==> Distinct(a) && Distinct(b) && Disjoint(a, b)
  {
    var c := a + b;
    if Distinct(c) {
      forall i, j | 0 <= i < j < |a| ensures a[i] != a[j] {
        assert c[i] == a[i] && c[j] == a[j];
      }
      forall i, j | 0 <= i < j < |b| ensures b[i] != b[j] {
        assert c[|a| + i] == b[i] && c[|a| + j] == b[j];
      }
      forall n | n in a ensures n !in b {
        var i :| 0 <= i < |a| && a[i] == n;
        assert c[i] == n;
        forall j | 0 <= j < |b| ensures b[j] != n {
          assert c[|a| + j] == b[j];
        }
      }
    }
    if Distinct(a) && Distinct(b) && Disjoint(a, b) {
      forall i, j | 0 <= i < j < |c| ensures c[i] != c[j] {
        if i < |a| <= j {
          assert c[i] in a && c[j] == b[j - |a|];
        }
      }
    }
  }
}
