/**
 String helpers of the song-request route: the title normalisation
 (`strProcess`), JavaScript's `String(n)` for a year and `slice(start, end)`.
 Strings are sequences of Unicode scalar values; upper-casing is ASCII only.
 */
module Text {
  import opened Seqs

  // ---------------------------------------------------------------------
  // Characters

  predicate IsLowerAscii(c: char)
  {
    'a' <= c <= 'z'
  }

  /** `toUpperCase` on one character, restricted to the ASCII letters. */
  function UpperChar(c: char): (u: char)
    ensures !IsLowerAscii(u)
    ensures !IsLowerAscii(c) ==> u == c
  {
    if IsLowerAscii(c) then (c as int - 32) as char else c
  }

  /** The character class that `strProcess` deletes. */
  const TitlePunctuation: string := "{}[]/?.,;:|)*~`!^-_+<>@#$%&\\=('\""

  predicate NotPunctuation(c: char)
  {
    c !in TitlePunctuation
  }

  predicate NotSpace(c: char)
  {
    c != ' '
  }

  /**
   The characters `String.prototype.trim` removes: ECMAScript's WhiteSpace
   (tab, vertical tab, form feed, space, no-break space, byte order mark and
   the Zs category) and LineTerminator (LF, CR, LS, PS).
   */
  predicate IsJsSpace(c: char)
  {
    var n := c as int;
    n == 0x09 || n == 0x0A || n == 0x0B || n == 0x0C || n == 0x0D || n == 0x20
    || n == 0xA0 || n == 0x1680 || (0x2000 <= n <= 0x200A) || n == 0x2028
    || n == 0x2029 || n == 0x202F || n == 0x205F || n == 0x3000 || n == 0xFEFF
  }

  // ---------------------------------------------------------------------
  // The pieces of strProcess

  /** `toUpperCase`, ASCII letters only. */
  function ToUpper(s: string): (r: string)
    ensures |r| == |s|
    ensures forall k :: 0 <= k < |r| ==> !IsLowerAscii(r[k])
    ensures forall k :: 0 <= k < |r| ==> r[k] == UpperChar(s[k])
  {
    seq(|s|, k requires 0 <= k < |s| => UpperChar(s[k]))
  }

  /** Where `trim` cuts at the front: the position of the first character that is not white space. */
  function TrimStart(s: string): (i: nat)
    ensures i <= |s|
    ensures forall k :: 0 <= k < i ==> IsJsSpace(s[k])
    ensures i == |s| || !IsJsSpace(s[i])
  {
    if |s| > 0 && IsJsSpace(s[0]) then 1 + TrimStart(s[1..]) else 0
  }

  /** Where `trim` cuts at the back: just after the last character that is not white space. */
  function TrimEnd(s: string): (j: nat)
    ensures j <= |s|
    ensures forall k :: j <= k < |s| ==> IsJsSpace(s[k])
    ensures j == 0 || !IsJsSpace(s[j - 1])
  {
    if |s| > 0 && IsJsSpace(s[|s| - 1]) then TrimEnd(s[..|s| - 1]) else |s|
  }

  /** Only white space lies outside positions `i` to `j` of `s`. */
  ghost predicate SpaceOutside(s: string, i: int, j: int)
  {
    && 0 <= i <= j <= |s|
    && (forall k :: 0 <= k < i ==> IsJsSpace(s[k]))
    && (forall k :: j <= k < |s| ==> IsJsSpace(s[k]))
  }

  /** `x` neither starts nor ends with white space. */
  ghost predicate Trimmed(x: string)
  {
    x == [] || (!IsJsSpace(x[0]) && !IsJsSpace(x[|x| - 1]))
  }

  /**
   `trim`: the infix of `s` left once the white space at both ends is gone;
   only white space lies outside it, and it neither starts nor ends with any.
   */
  function Trim(s: string): (r: string)
    ensures exists i, j :: SpaceOutside(s, i, j) && r == s[i..j]
    ensures Trimmed(r)
    ensures Trimmed(s) ==> r == s
  {
    var i := TrimStart(s);
    var j := TrimEnd(s);
    if j <= i then
      assert SpaceOutside(s, i, i) && [] == s[i..i];
      []
    else
      assert SpaceOutside(s, i, j);
      s[i..j]
  }

  /** Every character of `x` is white space. */
  ghost predicate AllSpace(x: string)
  {
    forall k :: 0 <= k < |x| ==> IsJsSpace(x[k])
  }

  lemma AllSpaceAppend(x: string, y: string)
    requires AllSpace(x) && AllSpace(y)
    ensures AllSpace(x + y)
  {
    forall k | 0 <= k < |x + y| ensures IsJsSpace((x + y)[k]) {
      if k < |x| { assert (x + y)[k] == x[k]; } else { assert (x + y)[k] == y[k - |x|]; }
    }
  }

  /**
   The cut `trim` makes is the only one possible: any infix with only white
   space outside it and no white space at its ends is the trimmed string.
   */
  lemma TrimUnique(s: string, i: nat, j: nat)
    requires SpaceOutside(s, i, j)
    requires i == j || (!IsJsSpace(s[i]) && !IsJsSpace(s[j - 1]))
    ensures Trim(s) == s[i..j]
  {
    var i0, j0 := TrimStart(s), TrimEnd(s);
    if i == j {
      assert forall k :: 0 <= k < |s| ==> IsJsSpace(s[k]) by {
        forall k | 0 <= k < |s| ensures IsJsSpace(s[k]) {
          if k < i {} else {}
        }
      }
    } else {
      assert i0 <= i;
      assert j <= j0;
    }
  }

  /** When the cuts meet, the string is all white space and trims to nothing. */
  lemma TrimCutsMeet(t: string)
    requires TrimEnd(t) <= TrimStart(t)
    ensures AllSpace(t) && Trim(t) == []
  {
    var i := TrimStart(t);
    forall k | 0 <= k < |t| ensures IsJsSpace(t[k]) {
      if k < i {} else {}
    }
  }

  /** Cutting a string at two positions with only white space outside them. */
  lemma SpaceAroundCut(t: string, i: nat, j: nat)
    requires SpaceOutside(t, i, j)
    ensures t == t[..i] + t[i..j] + t[j..]
    ensures AllSpace(t[..i]) && AllSpace(t[j..])
  {
    var b := t[j..];
    forall k | 0 <= k < |b| ensures IsJsSpace(b[k]) {
      assert b[k] == t[j + k];
    }
  }

  /** A string is its trimmed part with white space before and after. */
  lemma TrimSplit(t: string) returns (a: string, b: string)
    ensures t == a + Trim(t) + b
    ensures AllSpace(a) && AllSpace(b)
  {
    var i, j := TrimStart(t), TrimEnd(t);
    if j <= i {
      TrimCutsMeet(t);
      a, b := t, [];
    } else {
      SpaceAroundCut(t, i, j);
      assert Trim(t) == t[i..j];
      a, b := t[..i], t[j..];
    }
  }

  /** Trimming a trimmed string padded with white space gives back the string. */
  lemma TrimPadded(x: string, r: string, y: string)
    requires AllSpace(x) && AllSpace(y) && Trimmed(r)
    ensures Trim(x + r + y) == r
  {
    var s := x + r + y;
    var i, j := |x|, |x| + |r|;
    assert s[i..j] == r;
    forall k | j <= k < |s| ensures IsJsSpace(s[k]) {
      assert s[k] == y[k - j];
    }
    if r != [] {
      assert s[i] == r[0] && s[j - 1] == r[|r| - 1];
    }
    TrimUnique(s, i, j);
  }

  /** `trim` cuts off any white space added around a string. */
  lemma TrimAround(w: string, t: string, v: string)
    requires AllSpace(w) && AllSpace(v)
    ensures Trim(w + t + v) == Trim(t)
  {
    var a, b := TrimSplit(t);
    AllSpaceAppend(w, a);
    AllSpaceAppend(b, v);
    var m := Trim(t);
    Regroup(w, a, m, b, v);
    TrimPadded(w + a, m, b + v);
  }

  /** A string of white space holds no other character. */
  lemma NoCountInSpace(t: string, c: char)
    requires AllSpace(t)
    requires !IsJsSpace(c)
    ensures multiset(t)[c] == 0
  {
    assert c !in t;
  }

  /** Trimming keeps every character that is not white space, as often as it occurs. */
  lemma TrimCount(s: string, c: char)
    requires !IsJsSpace(c)
    ensures multiset(Trim(s))[c] == multiset(s)[c]
  {
    var a, b := TrimSplit(s);
    assert multiset(s) == multiset(a) + multiset(Trim(s)) + multiset(b);
    NoCountInSpace(a, c);
    NoCountInSpace(b, c);
  }

  /**
   `strProcess`: upper-case, delete the punctuation class, trim, then
   delete every space (`split(" ").join("")`).
   */
  function Normalize(s: string): (r: string)
    ensures forall k :: 0 <= k < |r| ==>
      !IsLowerAscii(r[k]) && NotPunctuation(r[k]) && NotSpace(r[k])
  {
    Filter(NotSpace, Trim(Filter(NotPunctuation, ToUpper(s))))
  }

  // ---------------------------------------------------------------------
  // Properties of the normalisation

  lemma ToUpperKeeps(s: string)
    requires forall k :: 0 <= k < |s| ==> !IsLowerAscii(s[k])
    ensures ToUpper(s) == s
  {
  }

  /** Deleting spaces from a string whose ends are not white space keeps both ends. */
  lemma SpaceFilterKeepsEnds(t: string)
    requires t != [] && Trimmed(t)
    ensures var r := Filter(NotSpace, t);
      r != [] && r[0] == t[0] && r[|r| - 1] == t[|t| - 1]
  {
    assert t == [t[0]] + t[1..];
    assert Filter(NotSpace, t) == [t[0]] + Filter(NotSpace, t[1..]);
    FilterLast(NotSpace, t);
  }

  /** The first and last characters of a normalised title are not white space. */
  lemma NormalizeEnds(s: string)
    ensures var r := Normalize(s);
      Trimmed(r)
  {
    var t := Trim(Filter(NotPunctuation, ToUpper(s)));
    assert Normalize(s) == Filter(NotSpace, t);
    if t != [] {
      SpaceFilterKeepsEnds(t);
    }
  }

  /**
   Normalisation keeps everything it does not delete: each character outside
   the punctuation class and the white space occurs in the normalised title
   exactly as often as in the upper-cased title.
   */
  lemma NormalizeKeepsContent(s: string, c: char)
    requires NotPunctuation(c) && !IsJsSpace(c)
    ensures multiset(Normalize(s))[c] == multiset(ToUpper(s))[c]
  {
    var p := Filter(NotPunctuation, ToUpper(s));
    FilterCount(NotPunctuation, ToUpper(s), c);
    TrimCount(p, c);
    FilterCount(NotSpace, Trim(p), c);
  }

  /**
   A title with no punctuation, no U+0020 and no white space at either end
   normalises to its upper-cased self, character for character and in order:
   interior tabs, no-break spaces and the like survive.
   */
  lemma NormalizePlain(s: string)
    requires forall k :: 0 <= k < |s| ==> NotPunctuation(s[k]) && NotSpace(s[k])
    requires Trimmed(s)
    ensures Normalize(s) == ToUpper(s)
  {
    var u := ToUpper(s);
    forall k | 0 <= k < |u| ensures NotPunctuation(u[k]) && NotSpace(u[k]) {
      UpperPlain(s[k]);
    }
    if u != [] {
      UpperPlain(s[0]);
      UpperPlain(s[|s| - 1]);
    }
    FilterKeepsAll(NotPunctuation, u);
    assert Trim(u) == u;
    FilterKeepsAll(NotSpace, u);
  }

  /** Upper-casing keeps a character out of the punctuation class, off U+0020 and off white space. */
  lemma UpperPlain(c: char)
    ensures NotPunctuation(c) ==> NotPunctuation(UpperChar(c))
    ensures NotSpace(c) ==> NotSpace(UpperChar(c))
    ensures !IsJsSpace(c) ==> !IsJsSpace(UpperChar(c))
  {
  }

  /** Normalising a normalised title changes nothing. */
  lemma NormalizeIdempotent(s: string)
    ensures Normalize(Normalize(s)) == Normalize(s)
  {
    var r := Normalize(s);
    ToUpperKeeps(r);
    FilterKeepsAll(NotPunctuation, r);
    NormalizeEnds(s);
    FilterKeepsAll(NotSpace, r);
  }

  lemma ToUpperAppend(a: string, b: string)
    ensures ToUpper(a + b) == ToUpper(a) + ToUpper(b)
  {
  }

  /** Upper-casing an inserted punctuation character leaves it in place. */
  lemma ToUpperAround(a: string, p: char, b: string)
    requires p in TitlePunctuation
    ensures ToUpper(a + [p] + b) == ToUpper(a) + [p] + ToUpper(b)
  {
    assert !IsLowerAscii(p);
    ToUpperAppend(a + [p], b);
    ToUpperAppend(a, [p]);
  }

  /** Deleting the punctuation class deletes an inserted punctuation character. */
  lemma FilterPunctuationAround(u: string, p: char, v: string)
    requires p in TitlePunctuation
    ensures Filter(NotPunctuation, u + [p] + v) == Filter(NotPunctuation, u + v)
  {
    assert Filter(NotPunctuation, [p]) == [] by {
      assert !NotPunctuation(p);
      assert [p][1..] == [];
    }
    FilterAppend(NotPunctuation, u + [p], v);
    FilterAppend(NotPunctuation, u, [p]);
    FilterAppend(NotPunctuation, u, v);
    assert Filter(NotPunctuation, u) + [] == Filter(NotPunctuation, u);
  }

  /** Any character of the punctuation class, anywhere in a title, is ignored. */
  lemma NormalizeIgnoresPunctuation(a: string, p: char, b: string)
    requires p in TitlePunctuation
    ensures Normalize(a + [p] + b) == Normalize(a + b)
  {
    ToUpperAround(a, p, b);
    ToUpperAppend(a, b);
    FilterPunctuationAround(ToUpper(a), p, ToUpper(b));
  }

  /** Letters that differ only in ASCII case normalise alike. */
  lemma NormalizeIgnoresCase(s: string)
    ensures Normalize(ToUpper(s)) == Normalize(s)
  {
    ToUpperKeeps(ToUpper(s));
  }

  /** The punctuation class is printable ASCII, from `!` to `~`. */
  lemma PunctuationPrintable()
    ensures forall k :: 0 <= k < |TitlePunctuation| ==> '!' <= TitlePunctuation[k] <= '~'
  {
  }

  /** White space is neither punctuation nor a lower-case letter. */
  lemma SpaceIsPlain(c: char)
    requires IsJsSpace(c)
    ensures NotPunctuation(c) && !IsLowerAscii(c)
  {
    PunctuationPrintable();
  }

  /** Deleting spaces from white space leaves white space. */
  lemma FilterSpaceOfSpace(a: string)
    requires AllSpace(a)
    ensures AllSpace(Filter(NotSpace, a))
  {
  }

  /** Deleting spaces from a string leaves the spaceless trimmed part padded with white space. */
  lemma FilterSpaceSplit(t: string) returns (fa: string, fb: string)
    ensures Filter(NotSpace, t) == fa + Filter(NotSpace, Trim(t)) + fb
    ensures AllSpace(fa) && AllSpace(fb)
  {
    var m := Trim(t);
    var a, b := TrimSplit(t);
    fa, fb := Filter(NotSpace, a), Filter(NotSpace, b);
    FilterAppend(NotSpace, a + m, b);
    FilterAppend(NotSpace, a, m);
    FilterSpaceOfSpace(a);
    FilterSpaceOfSpace(b);
  }

  /** Deleting spaces and trimming can be done in either order. */
  lemma TrimFilterSpace(t: string)
    ensures Filter(NotSpace, Trim(t)) == Trim(Filter(NotSpace, t))
  {
    var m := Trim(t);
    var fa, fb := FilterSpaceSplit(t);
    if m != [] {
      SpaceFilterKeepsEnds(m);
    }
    TrimPadded(fa, Filter(NotSpace, m), fb);
  }

  /** Upper-casing then deleting punctuation, around one inserted space. */
  lemma CleanAroundSpace(a: string, b: string)
    ensures Filter(NotPunctuation, ToUpper(a + " " + b))
      == Filter(NotPunctuation, ToUpper(a)) + " " + Filter(NotPunctuation, ToUpper(b))
  {
    var ua, ub := ToUpper(a), ToUpper(b);
    ToUpperAppend(a + " ", b);
    ToUpperAppend(a, " ");
    assert ToUpper(a + " " + b) == ua + " " + ub;
    assert Filter(NotPunctuation, " ") == " " by {
      assert NotPunctuation(' ');
      assert " "[1..] == [];
    }
    FilterAppend(NotPunctuation, ua + " ", ub);
    FilterAppend(NotPunctuation, ua, " ");
  }

  /** A space anywhere in a title is ignored, as `split(" ").join("")` deletes it. */
  lemma NormalizeIgnoresSpace(a: string, b: string)
    ensures Normalize(a + " " + b) == Normalize(a + b)
  {
    var pa, pb := Filter(NotPunctuation, ToUpper(a)), Filter(NotPunctuation, ToUpper(b));
    var x, y := Filter(NotPunctuation, ToUpper(a + " " + b)), Filter(NotPunctuation, ToUpper(a + b));
    CleanAroundSpace(a, b);
    CleanAppend(a, b);
    TrimFilterSpace(x);
    TrimFilterSpace(y);
    SpaceFilterDrops(pa, pb);
    calc {
      Normalize(a + " " + b);
      Filter(NotSpace, Trim(x));
      Trim(Filter(NotSpace, pa + " " + pb));
      Trim(Filter(NotSpace, pa + pb));
      Filter(NotSpace, Trim(y));
      Normalize(a + b);
    }
  }

  /** Upper-casing and deleting punctuation distribute over concatenation. */
  lemma CleanAppend(a: string, b: string)
    ensures Filter(NotPunctuation, ToUpper(a + b))
      == Filter(NotPunctuation, ToUpper(a)) + Filter(NotPunctuation, ToUpper(b))
  {
    ToUpperAppend(a, b);
    FilterAppend(NotPunctuation, ToUpper(a), ToUpper(b));
  }

  /** Deleting spaces deletes an inserted space. */
  lemma SpaceFilterDrops(u: string, v: string)
    ensures Filter(NotSpace, u + " " + v) == Filter(NotSpace, u + v)
  {
    assert Filter(NotSpace, " ") == [] by {
      assert " "[1..] == [];
    }
    FilterAppend(NotSpace, u + " ", v);
    FilterAppend(NotSpace, u, " ");
    FilterAppend(NotSpace, u, v);
    assert Filter(NotSpace, u) + [] == Filter(NotSpace, u);
  }

  /** Upper-casing and deleting punctuation leave white space in place. */
  lemma CleanAroundEnds(w: string, s: string, v: string)
    requires AllSpace(w) && AllSpace(v)
    ensures Filter(NotPunctuation, ToUpper(w + s + v)) == w + Filter(NotPunctuation, ToUpper(s)) + v
  {
    forall k | 0 <= k < |w| ensures NotPunctuation(w[k]) && !IsLowerAscii(w[k]) {
      SpaceIsPlain(w[k]);
    }
    forall k | 0 <= k < |v| ensures NotPunctuation(v[k]) && !IsLowerAscii(v[k]) {
      SpaceIsPlain(v[k]);
    }
    ToUpperAppend(w + s, v);
    ToUpperAppend(w, s);
    ToUpperKeeps(w);
    ToUpperKeeps(v);
    var u := ToUpper(s);
    FilterAppend(NotPunctuation, w + u, v);
    FilterAppend(NotPunctuation, w, u);
    FilterKeepsAll(NotPunctuation, w);
    FilterKeepsAll(NotPunctuation, v);
  }

  /** White space of any kind before or after a title is ignored, as `trim` cuts it. */
  lemma NormalizeIgnoresEndSpace(w: string, s: string, v: string)
    requires AllSpace(w) && AllSpace(v)
    ensures Normalize(w + s + v) == Normalize(s)
  {
    CleanAroundEnds(w, s, v);
    TrimAround(w, Filter(NotPunctuation, ToUpper(s)), v);
  }

  // ---------------------------------------------------------------------
  // String(n) and slice

  function DigitChar(d: nat): char
    requires d < 10
  {
    "0123456789"[d]
  }

  /** `String(n)` for a natural number: its decimal digits, no leading zero. */
  function DecimalString(n: nat): (r: string)
    ensures 1 <= |r|
    ensures forall k :: 0 <= k < |r| ==> '0' <= r[k] <= '9'
    ensures n >= 10 ==> r[0] != '0'
    ensures |r| == 1 || r[0] != '0'
    decreases n
  {
    if n < 10 then [DigitChar(n)] else DecimalString(n / 10) + [DigitChar(n % 10)]
  }

  /** The number a string of decimal digits denotes. */
  function DecimalValue(s: string): nat
    requires forall k :: 0 <= k < |s| ==> '0' <= s[k] <= '9'
  {
    if s == [] then 0
    else DecimalValue(s[..|s| - 1]) * 10 + (s[|s| - 1] as int - '0' as int)
  }

  /** `String(n)` is a faithful rendering of `n`. */
  lemma {:induction false} DecimalRoundTrip(n: nat)
    ensures DecimalValue(DecimalString(n)) == n
    decreases n
  {
    var r := DecimalString(n);
    DigitValue(n % 10);
    if n >= 10 {
      DecimalRoundTrip(n / 10);
      assert r[..|r| - 1] == DecimalString(n / 10);
      assert r[|r| - 1] == DigitChar(n % 10);
    }
  }

  /** A digit character denotes its digit. */
  lemma DigitValue(d: nat)
    requires d < 10
    ensures DigitChar(d) as int - '0' as int == d
  {
  }

  /** A year of four or more digits renders with at least four characters. */
  lemma DecimalLength(n: nat)
    requires n >= 1000
    ensures |DecimalString(n)| >= 4
  {
    var n1 := n / 10;
    var n2 := n1 / 10;
    assert n2 >= 10;
    assert |DecimalString(n2)| >= 2;
    assert |DecimalString(n1)| >= 3;
  }

  function Min(a: int, b: int): int
  {
    if a <= b then a else b
  }

  /**
   `s.slice(start, end)` for non-negative arguments: both ends are clamped to
   the length, and an end before the start gives the empty string.
   */
  function JsSlice(s: string, start: nat, end: nat): (r: string)
    ensures |r| == if Min(end, |s|) <= Min(start, |s|) then 0 else Min(end, |s|) - Min(start, |s|)
    ensures forall k :: 0 <= k < |r| ==> r[k] == s[start + k]
  {
    var lo := Min(start, |s|);
    var hi := Min(end, |s|);
    if hi <= lo then [] else s[lo..hi]
  }
}
