/** Python's order on strings, and `sorted` over it. */
module Strings {
  /** `a < b`: by code point, a proper prefix first. */
  predicate Before(a: string, b: string) {
    if b == "" then false
    else if a == "" then true
    else if a[0] != b[0] then a[0] < b[0]
    else Before(a[1..], b[1..])
  }

  /** The strings agree on their first k characters, and then the first ends or has the smaller character. */
  predicate PartsAt(a: string, b: string, k: nat) {
    k <= |a| && k < |b| && a[..k] == b[..k] && (k == |a| || a[k] < b[k])
  }

  lemma PartsBehind(a: string, b: string, k: nat)
    requires a != "" && b != "" && a[0] == b[0]
    ensures PartsAt(a, b, k + 1) <==> PartsAt(a[1..], b[1..], k)
  {
    if k < |a| && k < |b| {
      assert a[..k + 1] == [a[0]] + a[1..][..k] && b[..k + 1] == [b[0]] + b[1..][..k];
      assert a[1..][..k] == a[..k + 1][1..] && b[1..][..k] == b[..k + 1][1..];
    }
  }

  lemma PartsAtHead(a: string, b: string, k: nat)
    requires PartsAt(a, b, k)
    ensures b != "" && (k == 0 ==> a == "" || a[0] < b[0]) && (k > 0 ==> a != "" && a[0] == b[0])
  {
    if k > 0 {
      assert a[..k][0] == a[0] && b[..k][0] == b[0];
    }
  }

  /** At the first difference the smaller character decides; without one, the shorter string. */
  lemma {:induction false} BeforeIff(a: string, b: string)
    ensures Before(a, b) <==> exists k: nat :: PartsAt(a, b, k)
  {
    if b != "" && a != "" && a[0] == b[0] {
      hide PartsAt;
      BeforeIff(a[1..], b[1..]);
      forall k: nat | PartsAt(a, b, k) ensures Before(a, b) {
        PartsAtHead(a, b, k);
        if k > 0 {
          PartsBehind(a, b, k - 1);
        }
      }
      if k: nat :| PartsAt(a[1..], b[1..], k) {
        PartsBehind(a, b, k);
      }
    } else {
      forall k: nat | PartsAt(a, b, k) ensures Before(a, b) {
        PartsAtHead(a, b, k);
      }
      if Before(a, b) {
        assert PartsAt(a, b, 0);
      }
    }
  }

  lemma {:induction false} NotBeforeTransitive(a: string, b: string, c: string)
    requires !Before(b, a) && !Before(c, b)
    ensures !Before(c, a)
  {
    if a != "" && b != "" && c != "" && a[0] == b[0] == c[0] {
      NotBeforeTransitive(a[1..], b[1..], c[1..]);
    }
  }

  lemma {:induction false} BeforeAsymmetric(a: string, b: string)
    requires Before(a, b)
    ensures !Before(b, a)
  {
    if a != "" && a[0] == b[0] {
      BeforeAsymmetric(a[1..], b[1..]);
    }
  }

  /** `piece in s`. */
  predicate Contains(s: string, piece: string) {
    piece <= s || (s != "" && Contains(s[1..], piece))
  }

  /** A string contains another exactly if that is what lies between two parts of it. */
  lemma {:induction false} ContainsIff(s: string, piece: string)
    ensures Contains(s, piece) <==> exists a: string, b: string :: s == a + piece + b
  {
    forall a: string, b: string | s == a + piece + b ensures piece <= s || (a != "" && s != "") {
      StartsWithPiece(a, piece, b);
    }
    if piece <= s {
      assert s == "" + piece + s[|piece|..];
    } else if s != "" {
      ContainsIff(s[1..], piece);
      if a: string, b: string :| s[1..] == a + piece + b {
        assert s == ([s[0]] + a) + piece + b;
      }
      if a: string, b: string :| s == a + piece + b {
        assert s[1..] == a[1..] + piece + b;
      }
    }
  }

  lemma StartsWithPiece(a: string, piece: string, b: string)
    ensures a == "" ==> piece <= a + piece + b
    ensures a + piece + b == "" ==> a == ""
  {
    if a == "" {
      assert a + piece == piece;
    }
  }

  predicate InOrder(s: seq<string>) {
    forall i, j | 0 <= i < j < |s| :: !Before(s[j], s[i])
  }

  function Insert(x: string, s: seq<string>): seq<string> {
    if s == [] || !Before(s[0], x) then [x] + s else [s[0]] + Insert(x, s[1..])
  }

  function Sorted(s: seq<string>): seq<string> {
    if s == [] then [] else Insert(s[0], Sorted(s[1..]))
  }

  lemma {:induction false} InsertKeeps(x: string, s: seq<string>)
    ensures multiset(Insert(x, s)) == multiset(s) + multiset{x}
  {
    if s != [] && Before(s[0], x) {
      InsertKeeps(x, s[1..]);
      assert s == [s[0]] + s[1..];
    }
  }

  lemma {:induction false} InsertInOrder(x: string, s: seq<string>)
    requires InOrder(s)
    ensures InOrder(Insert(x, s))
  {
    if s == [] {
    } else if !Before(s[0], x) {
      forall j | 0 <= j < |s| ensures !Before(s[j], x) {
        if j > 0 {
          NotBeforeTransitive(x, s[0], s[j]);
        }
      }
    } else {
      InsertInOrder(x, s[1..]);
      InsertKeeps(x, s[1..]);
      BeforeAsymmetric(s[0], x);
      var t := Insert(x, s[1..]);
      forall j | 0 <= j < |t| ensures !Before(t[j], s[0]) {
        assert t[j] in multiset(t);
        if t[j] != x {
          assert t[j] in s[1..];
        }
      }
    }
  }

  /** Sorting orders the strings and keeps each as often as it occurs. */
  lemma {:induction false} SortedSorts(s: seq<string>)
    ensures InOrder(Sorted(s)) && multiset(Sorted(s)) == multiset(s)
  {
    if s != [] {
      hide InOrder, Insert;
      SortedSorts(s[1..]);
      InsertInOrder(s[0], Sorted(s[1..]));
      InsertKeeps(s[0], Sorted(s[1..]));
      assert s == [s[0]] + s[1..];
    } else {
      NothingSorted();
    }
  }

  lemma NothingSorted()
    ensures InOrder([]) && Sorted([]) == []
  {
  }
}
