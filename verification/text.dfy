/** The two string operations the server applies to every name, room and
    guess: ECMAScript `String.prototype.trim` and `toLowerCase`. */
module Text {

  /** ECMAScript WhiteSpace and LineTerminator code points, the set that
      `trim` strips from both ends. */
  predicate IsWhitespace(c: char) {
    || c == ' ' || c == '\t' || c == '\n' || c == '\r'
    || c == '\U{000B}' || c == '\U{000C}' || c == '\U{00A0}' || c == '\U{FEFF}'
    || c == '\U{1680}' || ('\U{2000}' <= c <= '\U{200A}')
    || c == '\U{2028}' || c == '\U{2029}' || c == '\U{202F}'
    || c == '\U{205F}' || c == '\U{3000}'
  }

  /** Upper-case letters of the Basic Latin and Latin-1 blocks. */
  predicate IsUpper(c: char) {
    ('A' <= c <= 'Z') || ('\U{00C0}' <= c <= '\U{00DE}' && c != '\U{00D7}')
  }

  function LowerChar(c: char): (r: char)
    ensures !IsUpper(r)
    ensures IsWhitespace(r) <==> IsWhitespace(c)
    ensures !IsUpper(c) ==> r == c
    ensures IsUpper(c) ==> r as int == c as int + 32
  {
    if IsUpper(c) then (c as int + 32) as char else c
  }

  /** Number of whitespace characters at the front of `s`. */
  function LeadingSpace(s: string): (n: nat)
    ensures n <= |s|
    ensures forall k :: 0 <= k < n ==> IsWhitespace(s[k])
    ensures n < |s| ==> !IsWhitespace(s[n])
  {
    if |s| == 0 || !IsWhitespace(s[0]) then 0 else 1 + LeadingSpace(s[1..])
  }

  /** Number of whitespace characters at the back of `s`. */
  function TrailingSpace(s: string): (n: nat)
    ensures n <= |s|
    ensures forall k :: |s| - n <= k < |s| ==> IsWhitespace(s[k])
    ensures n < |s| ==> !IsWhitespace(s[|s| - n - 1])
  {
    if |s| == 0 || !IsWhitespace(s[|s| - 1]) then 0
    else 1 + TrailingSpace(s[..|s| - 1])
  }

  /** No whitespace at either end. */
  predicate Trimmed(s: string) {
    |s| == 0 || (!IsWhitespace(s[0]) && !IsWhitespace(s[|s| - 1]))
  }

  /** `s.trim()`: `s` with its leading and trailing whitespace removed; what
      remains is a contiguous part of `s` and everything cut off was space. */
  function Trim(s: string): (r: string)
    ensures Trimmed(r)
    ensures exists i, j ::
      && 0 <= i <= j <= |s| && r == s[i..j]
      && (forall k :: 0 <= k < i ==> IsWhitespace(s[k]))
      && (forall k :: j <= k < |s| ==> IsWhitespace(s[k]))
  {
    var lead := LeadingSpace(s);
    if lead == |s| then
      assert s[|s|..|s|] == "";
      ""
    else
      var rest := s[lead..];
      var trail := TrailingSpace(rest);
      var r := rest[..|rest| - trail];
      assert r == s[lead..|s| - trail];
      assert forall k :: |s| - trail <= k < |s| ==> s[k] == rest[k - lead];
      r
  }

  /** `s.toLowerCase()` restricted to the Latin-1 letters: same length, no
      upper-case letter left, every other character kept. */
  function ToLower(s: string): (r: string)
    ensures |r| == |s|
    ensures forall i :: 0 <= i < |r| ==> !IsUpper(r[i])
    ensures forall i :: 0 <= i < |s| && !IsUpper(s[i]) ==> r[i] == s[i]
    ensures forall i :: 0 <= i < |s| ==> (IsWhitespace(r[i]) <==> IsWhitespace(s[i]))
    ensures forall i :: 0 <= i < |s| && IsUpper(s[i]) ==> r[i] as int == s[i] as int + 32
  {
    if |s| == 0 then "" else [LowerChar(s[0])] + ToLower(s[1..])
  }

  predicate IsLower(s: string) {
    forall i :: 0 <= i < |s| ==> !IsUpper(s[i])
  }

  /** `s.trim().toLowerCase()`, the normal form of user names, room names
      and guesses. */
  function Normalize(s: string): (r: string)
    ensures Trimmed(r) && IsLower(r)
    ensures |r| <= |s|
  {
    LowerOfTrimmed(Trim(s));
    ToLower(Trim(s))
  }

  /** What the normal form keeps of its input: the lower-cased middle,
      with only whitespace cut off at either end. */
  lemma NormalizeKeepsMiddle(s: string)
    ensures exists i, j ::
      && 0 <= i <= j <= |s| && Normalize(s) == ToLower(s[i..j])
      && (forall k :: 0 <= k < i ==> IsWhitespace(s[k]))
      && (forall k :: j <= k < |s| ==> IsWhitespace(s[k]))
  {
    LowerOfSlice(s, Trim(s));
  }

  /** Lower-casing keeps a string trimmed. */
  lemma LowerOfTrimmed(t: string)
    requires Trimmed(t)
    ensures Trimmed(ToLower(t)) && IsLower(ToLower(t))
  {
    var r := ToLower(t);
    assert |r| > 0 ==> IsWhitespace(r[0]) == IsWhitespace(t[0]);
  }

  /** Lower-casing a whitespace-padded slice of `s` is lower-casing a
      whitespace-padded slice of `s`. */
  lemma LowerOfSlice(s: string, t: string)
    requires exists i, j ::
      && 0 <= i <= j <= |s| && t == s[i..j]
      && (forall k :: 0 <= k < i ==> IsWhitespace(s[k]))
      && (forall k :: j <= k < |s| ==> IsWhitespace(s[k]))
    ensures exists i, j ::
      && 0 <= i <= j <= |s| && ToLower(t) == ToLower(s[i..j])
      && (forall k :: 0 <= k < i ==> IsWhitespace(s[k]))
      && (forall k :: j <= k < |s| ==> IsWhitespace(s[k]))
  {
    var i, j :| && 0 <= i <= j <= |s| && t == s[i..j]
                && (forall k :: 0 <= k < i ==> IsWhitespace(s[k]))
                && (forall k :: j <= k < |s| ==> IsWhitespace(s[k]));
    assert ToLower(t) == ToLower(s[i..j]);
  }

  /** A trimmed string is its own trim. */
  lemma {:induction false} TrimOfTrimmed(s: string)
    requires Trimmed(s)
    ensures Trim(s) == s
  {
    if |s| > 0 {
      assert LeadingSpace(s) == 0;
      assert TrailingSpace(s) == 0;
      assert s[0..] == s;
    }
  }

  /** Lower-casing a string without upper-case letters changes nothing. */
  lemma {:induction false} ToLowerOfLower(s: string)
    requires IsLower(s)
    ensures ToLower(s) == s
  {
    if |s| > 0 {
      ToLowerOfLower(s[1..]);
    }
  }

  /** The normal form is a fixed point: normalising twice is normalising once,
      and a string already in normal form is left alone. */
  lemma NormalizeIdempotent(s: string)
    ensures Normalize(Normalize(s)) == Normalize(s)
  {
    NormalizeOfNormal(Normalize(s));
  }

  lemma NormalizeOfNormal(s: string)
    requires Trimmed(s) && IsLower(s)
    ensures Normalize(s) == s
  {
    TrimOfTrimmed(s);
    ToLowerOfLower(s);
  }
  predicate AllWhitespace(s: string) {
    forall k :: 0 <= k < |s| ==> IsWhitespace(s[k])
  }

  /** `v` is `a` typed with any of its letters in capitals: each character
      is the one of `a` or the capital 32 code points below it. */
  predicate CaseVariant(v: string, a: string) {
    && |v| == |a|
    && forall i :: 0 <= i < |v| ==>
         v[i] == a[i] || (IsUpper(v[i]) && v[i] as int + 32 == a[i] as int)
  }

  lemma {:induction false} LeadingSpacePadded(ws: string, t: string)
    requires AllWhitespace(ws)
    requires |t| == 0 || !IsWhitespace(t[0])
    ensures LeadingSpace(ws + t) == |ws|
  {
    if |ws| == 0 {
      assert ws + t == t;
    } else {
      assert (ws + t)[0] == ws[0];
      assert (ws + t)[1..] == ws[1..] + t;
      LeadingSpacePadded(ws[1..], t);
    }
  }

  lemma {:induction false} TrailingSpacePadded(t: string, ws: string)
    requires AllWhitespace(ws)
    requires |t| == 0 || !IsWhitespace(t[|t| - 1])
    ensures TrailingSpace(t + ws) == |ws|
  {
    if |ws| == 0 {
      assert t + ws == t;
    } else {
      var s := t + ws;
      assert s[|s| - 1] == ws[|ws| - 1];
      assert s[..|s| - 1] == t + ws[..|ws| - 1];
      TrailingSpacePadded(t, ws[..|ws| - 1]);
    }
  }

  /** Trimming strips exactly the whitespace padding around a string with
      no whitespace at either end. */
  lemma TrimPadded(ws1: string, v: string, ws2: string)
    requires AllWhitespace(ws1) && AllWhitespace(ws2) && Trimmed(v)
    ensures Trim(ws1 + v + ws2) == v
  {
    var s := ws1 + v + ws2;
    assert s == ws1 + (v + ws2);
    if |v| == 0 {
      assert AllWhitespace(ws1 + ws2);
      LeadingSpacePadded(ws1 + ws2, "");
      assert ws1 + ws2 + "" == s;
    } else {
      assert (v + ws2)[0] == v[0];
      LeadingSpacePadded(ws1, v + ws2);
      var rest := s[|ws1|..];
      assert rest == v + ws2;
      TrailingSpacePadded(v, ws2);
      assert rest[..|rest| - |ws2|] == v;
    }
  }

  /** The answer typed with any letters in capitals and any whitespace
      around it normalises to the answer itself. */
  lemma NormalizeCaseVariant(ws1: string, v: string, ws2: string, a: string)
    requires AllWhitespace(ws1) && AllWhitespace(ws2)
    requires Trimmed(a) && IsLower(a)
    requires CaseVariant(v, a)
    ensures Normalize(ws1 + v + ws2) == a
  {
    if |v| > 0 {
      assert !IsWhitespace(v[0]) && !IsWhitespace(v[|v| - 1]);
    }
    TrimPadded(ws1, v, ws2);
    var r := ToLower(v);
    assert forall i :: 0 <= i < |r| ==> r[i] == a[i];
  }
}
