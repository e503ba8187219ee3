/** The few JavaScript string primitives the ingestion code leans on:
    `String.prototype.trim`, the `\s` regular-expression class and
    `String.prototype.toLowerCase`. */
module JsText {

  /** ECMAScript WhiteSpace and LineTerminator code points: exactly what `trim`
      removes and what the regular-expression class `\s` matches. */
  predicate IsSpace(c: char) {
    var n := c as int;
    (0x09 <= n <= 0x0D) || n == 0x20 || n == 0xA0 || n == 0x1680
    || (0x2000 <= n <= 0x200A) || n == 0x2028 || n == 0x2029
    || n == 0x202F || n == 0x205F || n == 0x3000 || n == 0xFEFF
  }

  predicate AllSpace(s: string) {
    forall i :: 0 <= i < |s| ==> IsSpace(s[i])
  }

  /** Drops the leading white space. */
  function TrimStart(s: string): (r: string)
    ensures |r| <= |s| && r == s[|s| - |r|..]
    ensures AllSpace(s[..|s| - |r|])
    ensures |r| > 0 ==> !IsSpace(r[0])
  {
    if |s| > 0 && IsSpace(s[0]) then TrimStart(s[1..]) else s
  }

  /** Drops the trailing white space. */
  function TrimEnd(s: string): (r: string)
    ensures |r| <= |s| && r == s[..|r|]
    ensures AllSpace(s[|r|..])
    ensures |r| > 0 ==> !IsSpace(r[|r| - 1])
  {
    if |s| > 0 && IsSpace(s[|s| - 1]) then TrimEnd(s[..|s| - 1]) else s
  }

  /** `s.trim()`. */
  function Trim(s: string): (r: string)
    ensures |r| <= |s|
    ensures |r| > 0 ==> !IsSpace(r[0]) && !IsSpace(r[|r| - 1])
    ensures r == [] <==> AllSpace(s)
  {
    var t := TrimStart(s);
    var u := TrimEnd(t);
    assert |u| > 0 ==> u[0] == t[0];
    assert t == [] && |s| > 0 ==> s[..|s|] == s;
    u
  }

  /** `toLowerCase` on one character: ASCII letters and the Latin-1 capitals
      (U+00C0 to U+00DE, except the multiplication sign) move down by 0x20,
      everything else is left as it is. */
  function LowerChar(c: char): char {
    if 'A' <= c <= 'Z' || ('\U{C0}' <= c <= '\U{DE}' && c != '\U{D7}')
    then (c as int + 0x20) as char
    else c
  }

  predicate IsUpper(c: char) {
    'A' <= c <= 'Z' || ('\U{C0}' <= c <= '\U{DE}' && c != '\U{D7}')
  }

  /** `s.toLowerCase()`: the same length, every character lowered. */
  function Lower(s: string): (r: string)
    ensures |r| == |s|
    ensures forall i :: 0 <= i < |s| ==> r[i] == LowerChar(s[i])
  {
    seq(|s|, i requires 0 <= i < |s| => LowerChar(s[i]))
  }

  lemma LowerCharFixesNonUpper(c: char)
    ensures !IsUpper(c) ==> LowerChar(c) == c
    ensures !IsUpper(LowerChar(c))
    ensures IsSpace(LowerChar(c)) <==> IsSpace(c)
  {
  }

  /** Lowering leaves no capital behind, so lowering twice is lowering once. */
  lemma LowerIdempotent(s: string)
    ensures Lower(Lower(s)) == Lower(s)
    ensures forall i :: 0 <= i < |s| ==> !IsUpper(Lower(s)[i])
  {
    forall i | 0 <= i < |s|
      ensures Lower(Lower(s))[i] == Lower(s)[i] && !IsUpper(Lower(s)[i])
    {
      LowerCharFixesNonUpper(s[i]);
      LowerCharFixesNonUpper(LowerChar(s[i]));
    }
  }

  lemma LowerAppend(a: string, b: string)
    ensures Lower(a + b) == Lower(a) + Lower(b)
  {
  }

  lemma {:induction false} TrimStartSkipsSpace(w: string, t: string)
    requires AllSpace(w)
    ensures TrimStart(w + t) == TrimStart(t)
    decreases |w|
  {
    if |w| > 0 {
      assert (w + t)[1..] == w[1..] + t;
      TrimStartSkipsSpace(w[1..], t);
    } else {
      assert w + t == t;
    }
  }

  lemma {:induction false} TrimEndSkipsSpace(t: string, w: string)
    requires AllSpace(w)
    ensures TrimEnd(t + w) == TrimEnd(t)
    decreases |w|
  {
    if |w| > 0 {
      assert (t + w)[..|t + w| - 1] == t + w[..|w| - 1];
      TrimEndSkipsSpace(t, w[..|w| - 1]);
    } else {
      assert t + w == t;
    }
  }

  /** Trailing white space survives `TrimStart` unless everything before it is blank. */
  lemma {:induction false} TrimStartAppend(s: string, w: string)
    requires AllSpace(w)
    ensures AllSpace(s) ==> TrimStart(s + w) == []
    ensures !AllSpace(s) ==> TrimStart(s + w) == TrimStart(s) + w
    decreases |s|
  {
    if |s| == 0 {
      assert s + w == w;
      TrimStartSkipsSpace(w, []);
      assert w + [] == w;
    } else {
      assert (s + w)[1..] == s[1..] + w;
      TrimStartAppend(s[1..], w);
      if IsSpace(s[0]) {
        assert AllSpace(s) <==> AllSpace(s[1..]);
      }
    }
  }

  /** `trim` ignores any white space padding on either side. */
  lemma TrimPadded(w1: string, s: string, w2: string)
    requires AllSpace(w1) && AllSpace(w2)
    ensures Trim(w1 + s + w2) == Trim(s)
  {
    assert w1 + s + w2 == w1 + (s + w2);
    TrimStartSkipsSpace(w1, s + w2);
    TrimStartAppend(s, w2);
    if AllSpace(s) {
      assert TrimStart(s) == [];
    } else {
      TrimEndSkipsSpace(TrimStart(s), w2);
    }
  }

  /** A string with no white space at either end is its own trim. */
  lemma TrimOfTrimmed(s: string)
    requires |s| > 0 ==> !IsSpace(s[0]) && !IsSpace(s[|s| - 1])
    ensures Trim(s) == s
  {
    assert s[..|s|] == s;
  }

  lemma TrimIdempotent(s: string)
    ensures Trim(Trim(s)) == Trim(s)
  {
    TrimOfTrimmed(Trim(s));
  }

  /** Number of white-space characters `trim` drops at the front. */
  function Lead(s: string): nat {
    |s| - |TrimStart(s)|
  }

  lemma TrimStartSplits(s: string)
    ensures s == s[..Lead(s)] + TrimStart(s)
  {
  }

  lemma TrimEndSplits(a: string)
    ensures a == TrimEnd(a) + a[|TrimEnd(a)|..]
  {
  }

  /** Cutting a string where a known middle piece starts. */
  lemma Reassemble(s: string, p: nat, t: string, q: string)
    requires p <= |s| && s[p..] == t + q
    ensures p + |t| <= |s| && s == s[..p] + t + s[p + |t|..]
  {
    assert s[p + |t|..] == q;
    assert s == s[..p] + s[p..];
  }

  lemma TrimSplitsAround(s: string)
    ensures Lead(s) + |Trim(s)| <= |s|
    ensures s == s[..Lead(s)] + Trim(s) + s[Lead(s) + |Trim(s)|..]
  {
    var a := TrimStart(s);
    TrimEndSplits(a);
    Reassemble(s, Lead(s), Trim(s), a[|Trim(s)|..]);
  }

  /** A string is its trim with an all-blank piece on either side. */
  lemma TrimSplits(s: string)
    ensures Lead(s) + |Trim(s)| <= |s|
    ensures s == s[..Lead(s)] + Trim(s) + s[Lead(s) + |Trim(s)|..]
    ensures AllSpace(s[..Lead(s)]) && AllSpace(s[Lead(s) + |Trim(s)|..])
  {
    TrimSplitsAround(s);
    var a := TrimStart(s);
    var k := |TrimEnd(a)|;
    assert AllSpace(a[k..]);
    SuffixOfSuffix(s, Lead(s), k);
  }

  /** The blank pieces `trim` removes, as values. */
  lemma TrimPieces(s: string) returns (p: string, q: string)
    ensures AllSpace(p) && AllSpace(q)
    ensures s == p + Trim(s) + q
  {
    TrimSplits(s);
    p, q := s[..Lead(s)], s[Lead(s) + |Trim(s)|..];
  }

  /** Each character of the trimmed string is one of the original's. */
  lemma TrimKeeps(s: string, i: nat)
    requires i < |Trim(s)|
    ensures Trim(s)[i] == s[Lead(s) + i]
  {
    TrimSplits(s);
  }

  lemma SuffixOfSuffix(s: string, p: nat, k: nat)
    requires p + k <= |s|
    ensures s[p..][k..] == s[p + k..]
  {
  }

  lemma LowerOfSpace(p: string)
    requires AllSpace(p)
    ensures AllSpace(Lower(p))
  {
    forall i | 0 <= i < |p| ensures IsSpace(Lower(p)[i]) {
      LowerCharFixesNonUpper(p[i]);
    }
  }

  lemma LowerOfTrimmed(t: string)
    requires Trim(t) == t
    ensures Trim(Lower(t)) == Lower(t)
  {
    if |t| > 0 {
      LowerCharFixesNonUpper(t[0]);
      LowerCharFixesNonUpper(t[|t| - 1]);
    }
    TrimOfTrimmed(Lower(t));
  }

  lemma LowerOfThree(p: string, t: string, q: string)
    ensures Lower(p + t + q) == Lower(p) + Lower(t) + Lower(q)
  {
    LowerAppend(p, t);
    LowerAppend(p + t, q);
  }

  lemma TrimLowerPadded(p: string, t: string, q: string)
    requires AllSpace(p) && AllSpace(q) && Trim(t) == t
    ensures Trim(Lower(p + t + q)) == Lower(t)
  {
    LowerOfThree(p, t, q);
    LowerOfSpace(p);
    LowerOfSpace(q);
    TrimPadded(Lower(p), Lower(t), Lower(q));
    LowerOfTrimmed(t);
  }

  /** Lowering keeps white space where it is, so it commutes with `trim`. */
  lemma LowerTrimCommute(s: string)
    ensures Trim(Lower(s)) == Lower(Trim(s))
  {
    var p, q := TrimPieces(s);
    TrimIdempotent(s);
    TrimLowerPadded(p, Trim(s), q);
  }
}
