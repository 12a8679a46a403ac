/**
 The string operations the ledger's matching rules rest on. Go's TrimSpace drops every white space
 character at both ends; Postgres btrim drops only spaces. Letters are folded one by one in ASCII.
 */
module Text {

  predicate IsSpace(c: char) {
    c == ' ' || '\t' <= c <= '\r' || c == '\U{0085}' || c == '\U{00A0}'
  }

  predicate IsBlank(c: char) {
    c == ' '
  }

  /** Where the kept part of a text starts, and where it ends. */
  function Start(s: string, drop: char -> bool): (k: nat)
    ensures k <= |s|
    ensures forall i :: 0 <= i < k ==> drop(s[i])
    ensures k < |s| ==> !drop(s[k])
  {
    if s == [] || !drop(s[0]) then 0 else Start(s[1..], drop) + 1
  }

  function End(s: string, drop: char -> bool): (k: nat)
    ensures k <= |s|
    ensures forall i :: k <= i < |s| ==> drop(s[i])
    ensures 0 < k ==> !drop(s[k - 1])
  {
    if s == [] || !drop(s[|s| - 1]) then |s| else End(s[..|s| - 1], drop)
  }

  function TrimBy(s: string, drop: char -> bool): string {
    var from, until := Start(s, drop), End(s, drop);
    if from < until then s[from..until] else ""
  }

  /** strings.TrimSpace */
  function Trim(s: string): string {
    TrimBy(s, IsSpace)
  }

  /** btrim, which leaves tabs and line breaks alone */
  function BTrim(s: string): string {
    TrimBy(s, IsBlank)
  }

  /** Dropping both ends up to two kept characters trims the text. */
  lemma TrimIs(s: string, from: nat, until: nat, drop: char -> bool)
    requires from <= until <= |s|
    requires forall i :: 0 <= i < from || until <= i < |s| ==> drop(s[i])
    requires from < until ==> !drop(s[from]) && !drop(s[until - 1])
    ensures TrimBy(s, drop) == s[from..until]
  {
    var k, n := Start(s, drop), End(s, drop);
    if from < until {
      assert k == from && n == until;
    }
  }

  lemma TrimIdempotent(s: string)
    ensures Trim(Trim(s)) == Trim(s)
  {
    var t := Trim(s);
    TrimIs(t, 0, |t|, IsSpace);
  }

  /** TrimSpace drops all that btrim drops. */
  lemma TrimAfterBTrim(s: string)
    ensures Trim(BTrim(s)) == Trim(s)
  {
    var k, n := Start(s, IsBlank), End(s, IsBlank);
    if k < n {
      TrimWithin(s, k, n);
    } else {
      WhiteSpaceTrimsAway(s);
    }
  }

  lemma SliceOfSlice(s: string, k: nat, n: nat, from: nat, until: nat)
    requires k <= n <= |s| && from <= until <= n - k
    ensures s[k..n][from..until] == s[k + from..k + until]
  {
    var a, b := s[k..n][from..until], s[k + from..k + until];
    forall i | 0 <= i < |a| ensures a[i] == b[i] {
      assert a[i] == s[k..n][from + i] == s[k + from + i];
    }
  }

  lemma TrimWithin(s: string, k: nat, n: nat)
    requires k < n <= |s|
    requires forall i :: 0 <= i < k || n <= i < |s| ==> IsSpace(s[i])
    ensures Trim(s[k..n]) == Trim(s)
  {
    var t := s[k..n];
    var from, until := Start(t, IsSpace), End(t, IsSpace);
    if from < until {
      forall i | 0 <= i < k + from || k + until <= i < |s| ensures IsSpace(s[i]) {
        assert k <= i < n ==> IsSpace(t[i - k]);
      }
      TrimIs(s, k + from, k + until, IsSpace);
      SliceOfSlice(s, k, n, from, until);
    } else {
      forall i | 0 <= i < |s| ensures IsSpace(s[i]) {
        assert k <= i < n ==> IsSpace(t[i - k]);
      }
      WhiteSpaceTrimsAway(s);
    }
  }

  lemma WhiteSpaceTrimsAway(s: string)
    ensures Trim(s) == "" <==> forall i :: 0 <= i < |s| ==> IsSpace(s[i])
  {
    var from, until := Start(s, IsSpace), End(s, IsSpace);
  }

  lemma TrimIsNoLonger(s: string)
    ensures |Trim(s)| <= |s|
    ensures |Trim(s)| == |s| ==> Trim(s) == s
  {
  }

  /** A value without white space at its ends reads the same through both trims. */
  lemma TrimmedTrimsAgree(s: string)
    requires Trim(s) == s
    ensures BTrim(s) == s
  {
    TrimAfterBTrim(s);
    TrimIsNoLonger(BTrim(s));
  }

  function LowerChar(c: char): (l: char)
    ensures IsSpace(l) <==> IsSpace(c)
  {
    if 'A' <= c <= 'Z' then (c as int + 32) as char else c
  }

  function Lower(s: string): (l: string)
    ensures |l| == |s|
    ensures forall i :: 0 <= i < |s| ==> l[i] == LowerChar(s[i])
  {
    seq(|s|, i requires 0 <= i < |s| => LowerChar(s[i]))
  }

  /** strings.EqualFold */
  predicate EqualFold(a: string, b: string) {
    |a| == |b| && forall i :: 0 <= i < |a| ==> LowerChar(a[i]) == LowerChar(b[i])
  }

  /** One canonical fold: texts are equal ignoring case exactly when their lowercase forms are equal. */
  lemma EqualFoldIsEqualLower(a: string, b: string)
    ensures EqualFold(a, b) <==> Lower(a) == Lower(b)
  {
    if Lower(a) == Lower(b) {
      forall i | 0 <= i < |a| ensures LowerChar(a[i]) == LowerChar(b[i]) {
        assert Lower(a)[i] == Lower(b)[i];
      }
    }
  }

  /** Go's `<` on strings; UTF-8 keeps the order of code points. */
  predicate Less(a: string, b: string) {
    b != "" && (a == "" || a[0] < b[0] || (a[0] == b[0] && Less(a[1..], b[1..])))
  }

  lemma {:induction false} LessIsATotalOrder(a: string, b: string)
    ensures !(Less(a, b) && Less(b, a))
    ensures a != b ==> Less(a, b) || Less(b, a)
    ensures !Less(a, a)
  {
    if a != "" && b != "" {
      LessIsATotalOrder(a[1..], b[1..]);
      if a[0] == b[0] && a != b {
        assert a == [a[0]] + a[1..] && b == [b[0]] + b[1..];
      }
    }
    if a != "" {
      LessIsATotalOrder(a[1..], a[1..]);
    }
  }

  lemma {:induction false} LessIsTransitive(a: string, b: string, c: string)
    requires Less(a, b) && Less(b, c)
    ensures Less(a, c)
  {
    if a != "" && a[0] == b[0] == c[0] {
      LessIsTransitive(a[1..], b[1..], c[1..]);
    }
  }

  /** Where two texts first differ, the first of them has ended or has the smaller character. */
  predicate DiffersUpwardsAt(a: string, b: string, k: nat) {
    && k <= |a| && k < |b| && a[..k] == b[..k]
    && (k == |a| || a[k] < b[k])
  }

  lemma {:induction false} LessIff(a: string, b: string)
    ensures Less(a, b) <==> exists k: nat :: DiffersUpwardsAt(a, b, k)
  {
    if a == "" || b == "" {
      assert b != "" ==> DiffersUpwardsAt(a, b, 0);
    } else if a[0] != b[0] {
      assert a[0] < b[0] ==> DiffersUpwardsAt(a, b, 0);
      assert forall k: nat :: DiffersUpwardsAt(a, b, k) && k > 0 ==> a[..k][0] == b[..k][0];
    } else {
      LessIff(a[1..], b[1..]);
      if k: nat :| DiffersUpwardsAt(a[1..], b[1..], k) {
        assert a[..k + 1] == [a[0]] + a[1..][..k] && b[..k + 1] == [b[0]] + b[1..][..k];
        assert DiffersUpwardsAt(a, b, k + 1);
      }
      if k: nat :| DiffersUpwardsAt(a, b, k) {
        assert k > 0;
        assert a[1..][..k - 1] == a[..k][1..] && b[1..][..k - 1] == b[..k][1..];
        assert DiffersUpwardsAt(a[1..], b[1..], k - 1);
      }
    }
  }

  /** The 26 capitals are folded to the small letter of the same place in the alphabet, and nothing else is. */
  lemma OnlyCapitalsFold(c: char)
    ensures 'A' <= c <= 'Z' ==> 'a' <= LowerChar(c) <= 'z' && LowerChar(c) as int - 'a' as int == c as int - 'A' as int
    ensures !('A' <= c <= 'Z') ==> LowerChar(c) == c
  {
  }

  lemma LessIsAnOrder()
    ensures forall a, b :: Less(a, b) ==> !Less(b, a)
    ensures forall a, b, c :: Less(a, b) ==> Less(a, c) || Less(c, b)
  {
    forall a, b ensures Less(a, b) ==> !Less(b, a) {
      LessIsATotalOrder(a, b);
    }
    forall a, b, c | Less(a, b) ensures Less(a, c) || Less(c, b) {
      LessIsATotalOrder(a, c);
      if Less(c, a) {
        LessIsTransitive(c, a, b);
      }
    }
  }
}
