/**
 * The few operations of Go's `strings` package that the middleware uses,
 * on strings modelled as sequences of characters, and Go's string order.
 */
module Strings {
  import opened Wrappers

  /** strings.TrimLeft(s, string(c)): drop every leading c. */
  function TrimLeft(s: string, c: char): (r: string)
    ensures r == "" || r[0] != c
    ensures |r| <= |s| && r == s[|s| - |r|..]
    ensures forall i :: 0 <= i < |s| - |r| ==> s[i] == c
    decreases |s|
  {
    if s != [] && s[0] == c then TrimLeft(s[1..], c) else s
  }

  /** strings.TrimRight(s, string(c)): drop every trailing c. */
  function TrimRight(s: string, c: char): (r: string)
    ensures r == "" || r[|r| - 1] != c
    ensures |r| <= |s| && r == s[..|r|]
    ensures forall i :: |r| <= i < |s| ==> s[i] == c
    decreases |s|
  {
    if s != [] && s[|s| - 1] == c then TrimRight(s[..|s| - 1], c) else s
  }

  /** r is the part of s starting at i, and everything of s before and after it is c. */
  predicate CutAt(s: string, c: char, i: int, r: string)
  {
    && 0 <= i <= |s| - |r| && r == s[i..i + |r|]
    && (forall k :: 0 <= k < i ==> s[k] == c)
    && (forall k :: i + |r| <= k < |s| ==> s[k] == c)
  }

  /** strings.Trim(s, string(c)): drop every leading and trailing c. */
  function Trim(s: string, c: char): (r: string)
    ensures r == "" || (r[0] != c && r[|r| - 1] != c)
    ensures r == "" <==> forall i :: 0 <= i < |s| ==> s[i] == c
  {
    var l := TrimLeft(s, c);
    var r := TrimRight(l, c);
    assert r != "" ==> r[0] == l[0];
    r
  }

  /** One leading c is trimmed like the rest. */
  lemma TrimCons(c: char, s: string)
    ensures Trim([c] + s, c) == Trim(s, c)
  {
    TrimLeftCons(c, s);
  }

  /** Nothing to trim when s neither starts nor ends with c. */
  lemma TrimNoop(s: string, c: char)
    requires s == "" || (s[0] != c && s[|s| - 1] != c)
    ensures Trim(s, c) == s
  {
    TrimLeftNoop(s, c);
    TrimRightNoop(s, c);
  }

  /** Trim cuts s down to one contiguous piece, with only c on either side of it. */
  lemma TrimCut(s: string, c: char)
    ensures exists i :: CutAt(s, c, i, Trim(s, c))
  {
    var l := TrimLeft(s, c);
    var r := TrimRight(l, c);
    assert Trim(s, c) == r;
    var i := |s| - |l|;
    assert r == l[..|r|] == s[i..i + |r|];
    forall k | i + |r| <= k < |s| ensures s[k] == c {
      assert s[k] == l[k - i];
    }
    assert CutAt(s, c, i, r);
  }

  /** Index of the first c in s, if any (the cut point of strings.SplitN(s, sep, 2)). */
  function IndexOf(s: string, c: char): (r: Option<nat>)
    ensures r.None? <==> c !in s
    ensures r.Some? ==> r.value < |s| && s[r.value] == c && c !in s[..r.value]
  {
    if s == [] then None
    else if s[0] == c then Some(0)
    else match IndexOf(s[1..], c)
      case None => None
      case Some(i) => Some(i + 1)
  }

  /** TrimLeft leaves nothing exactly when s consists of c alone. */
  lemma TrimLeftEmpty(s: string, c: char)
    ensures TrimLeft(s, c) == "" <==> forall i :: 0 <= i < |s| ==> s[i] == c
  {
    var r := TrimLeft(s, c);
    if r != "" {
      assert s[|s| - |r|] == r[0];
    }
  }

  /** One leading c is trimmed like the rest. */
  lemma TrimLeftCons(c: char, s: string)
    ensures TrimLeft([c] + s, c) == TrimLeft(s, c)
  {
    assert ([c] + s)[1..] == s;
  }

  /** Nothing to trim when s does not start with c. */
  lemma TrimLeftNoop(s: string, c: char)
    requires s == "" || s[0] != c
    ensures TrimLeft(s, c) == s
  {
  }

  /** One trailing c is trimmed like the rest. */
  lemma TrimRightSnoc(s: string, c: char)
    ensures TrimRight(s + [c], c) == TrimRight(s, c)
  {
    assert (s + [c])[..|s|] == s;
  }

  /** Nothing to trim when s does not end with c. */
  lemma TrimRightNoop(s: string, c: char)
    requires s == "" || s[|s| - 1] != c
    ensures TrimRight(s, c) == s
  {
  }

  /** The first c is at k when s[k] is c and no c comes before it. */
  lemma IndexOfAt(s: string, c: char, k: nat)
    requires k < |s| && s[k] == c && c !in s[..k]
    ensures IndexOf(s, c) == Some(k)
  {
    assert c in s;
  }

  /** strings.TrimPrefix(s, prefix). */
  function TrimPrefix(s: string, prefix: string): (r: string)
    ensures prefix <= s ==> prefix + r == s
    ensures !(prefix <= s) ==> r == s
  {
    if prefix <= s then s[|prefix|..] else s
  }

  /**
   * Go's `<` on strings: byte-wise lexicographic order. Characters stand for
   * code points here; UTF-8 preserves code-point order, so the order agrees.
   */
  predicate Less(a: string, b: string)
    decreases |a|
  {
    if a == [] then b != []
    else if b == [] then false
    else if a[0] != b[0] then a[0] < b[0]
    else Less(a[1..], b[1..])
  }

  lemma {:induction false} LessIrreflexive(a: string)
    ensures !Less(a, a)
    decreases |a|
  {
    if a != [] {
      LessIrreflexive(a[1..]);
    }
  }

  lemma {:induction false} LessAsymmetric(a: string, b: string)
    ensures Less(a, b) ==> !Less(b, a)
    decreases |a|
  {
    if a != [] && b != [] && a[0] == b[0] {
      LessAsymmetric(a[1..], b[1..]);
    }
  }

  lemma {:induction false} LessTransitive(a: string, b: string, c: string)
    ensures Less(a, b) && Less(b, c) ==> Less(a, c)
    decreases |a|
  {
    if a != [] && b != [] && c != [] && a[0] == b[0] && b[0] == c[0] {
      LessTransitive(a[1..], b[1..], c[1..]);
    }
  }

  lemma {:induction false} LessTotal(a: string, b: string)
    ensures a == b || Less(a, b) || Less(b, a)
    decreases |a|
  {
    if a != [] && b != [] && a[0] == b[0] {
      LessTotal(a[1..], b[1..]);
      if a[1..] == b[1..] {
        assert a == [a[0]] + a[1..] && b == [b[0]] + b[1..];
      }
    }
  }

  /** The number of bytes UTF-8 spends on one character. */
  function CharBytes(ch: char): (n: nat)
    ensures 1 <= n <= 4
    ensures n == 1 <==> ch as int < 0x80
  {
    if ch as int < 0x80 then 1
    else if ch as int < 0x800 then 2
    else if ch as int < 0x1_0000 then 3
    else 4
  }

  /** len(s) in Go: the length of s's UTF-8 encoding, in bytes. */
  function Utf8Len(s: string): (n: nat)
    ensures |s| <= n <= 4 * |s|
  {
    if s == [] then 0 else CharBytes(s[0]) + Utf8Len(s[1..])
  }

  /** One byte per character exactly when every character is ASCII. */
  lemma {:induction false} Utf8LenAscii(s: string)
    ensures Utf8Len(s) == |s| <==> forall i :: 0 <= i < |s| ==> s[i] as int < 0x80
  {
    if s != [] {
      Utf8LenAscii(s[1..]);
      assert forall i :: 1 <= i < |s| ==> s[i] == s[1..][i - 1];
    }
  }

  lemma {:induction false} Utf8LenAppend(a: string, b: string)
    ensures Utf8Len(a + b) == Utf8Len(a) + Utf8Len(b)
    decreases |a|
  {
    if a != [] {
      assert (a + b)[0] == a[0] && (a + b)[1..] == a[1..] + b;
      Utf8LenAppend(a[1..], b);
    } else {
      assert a + b == b;
    }
  }

  /** Of two strings one of which extends the other, the longer has the longer encoding, and only it. */
  lemma Utf8LenPrefix(a: string, b: string)
    requires a <= b
    ensures Utf8Len(a) <= Utf8Len(b)
    ensures Utf8Len(a) < Utf8Len(b) <==> |a| < |b|
  {
    assert b == a + b[|a|..];
    Utf8LenAppend(a, b[|a|..]);
  }
}
