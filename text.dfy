/** The string operations the script relies on (toLowerCase, trim, includes,
    endsWith), restricted to ASCII letters and ASCII white space. */
module Text {

  /** The ASCII characters String.prototype.trim removes: space, tab, line
      feed, vertical tab, form feed and carriage return. */
  predicate IsSpace(c: char) {
    c == ' ' || c == '\t' || c == '\n' || c == '\U{B}' || c == '\U{C}' || c == '\r'
  }

  predicate IsUpper(c: char) {
    'A' <= c <= 'Z'
  }

  /** toLowerCase on one character: A-Z map to a-z, everything else is kept. */
  function LowerChar(c: char): char {
    if IsUpper(c) then (c as int + 32) as char else c
  }

  /** String.prototype.toLowerCase. */
  function ToLower(s: string): (r: string)
    ensures |r| == |s|
  {
    if s == [] then [] else [LowerChar(s[0])] + ToLower(s[1..])
  }

  /** toLowerCase lowers each character in place. */
  lemma {:induction false} ToLowerChars(s: string)
    ensures forall i :: 0 <= i < |s| ==> ToLower(s)[i] == LowerChar(s[i])
    decreases |s|
  {
    if s != [] {
      ToLowerChars(s[1..]);
    }
  }

  /** toLowerCase distributes over concatenation. */
  lemma ToLowerAppend(s: string, t: string)
    ensures ToLower(s + t) == ToLower(s) + ToLower(t)
  {
    ToLowerChars(s + t);
    ToLowerChars(s);
    ToLowerChars(t);
  }

  /** String.prototype.trim, first half: drops the leading white space. */
  function TrimStart(s: string): string {
    if |s| > 0 && IsSpace(s[0]) then TrimStart(s[1..]) else s
  }

  /** String.prototype.trim, second half: drops the trailing white space. */
  function TrimEnd(s: string): string {
    if |s| > 0 && IsSpace(s[|s| - 1]) then TrimEnd(s[..|s| - 1]) else s
  }

  /** What TrimStart leaves is a suffix of s that is empty or starts with a
      non-space, and everything it cuts off is space. */
  lemma {:induction false} TrimStartSpec(s: string)
    ensures var r := TrimStart(s);
      && |r| <= |s| && r == s[|s| - |r|..]
      && (forall k :: 0 <= k < |s| - |r| ==> IsSpace(s[k]))
      && (r == [] || !IsSpace(r[0]))
    decreases |s|
  {
    if |s| > 0 && IsSpace(s[0]) {
      var t := s[1..];
      TrimStartSpec(t);
      var r := TrimStart(t);
      assert t[|t| - |r|..] == s[|s| - |r|..];
      forall k | 0 <= k < |s| - |r|
        ensures IsSpace(s[k])
      {
        if k > 0 {
          assert s[k] == t[k - 1];
        }
      }
    }
  }

  /** What TrimEnd leaves is a prefix of s that is empty or ends with a
      non-space, and everything it cuts off is space. */
  lemma {:induction false} TrimEndSpec(s: string)
    ensures var r := TrimEnd(s);
      && |r| <= |s| && r == s[..|r|]
      && (forall k :: |r| <= k < |s| ==> IsSpace(s[k]))
      && (r == [] || !IsSpace(r[|r| - 1]))
    decreases |s|
  {
    if |s| > 0 && IsSpace(s[|s| - 1]) {
      var t := s[..|s| - 1];
      TrimEndSpec(t);
      var r := TrimEnd(t);
      assert t[..|r|] == s[..|r|];
      forall k | |r| <= k < |s|
        ensures IsSpace(s[k])
      {
        if k < |s| - 1 {
          assert s[k] == t[k];
        }
      }
    }
  }

  /** String.prototype.trim. */
  function Trim(s: string): string {
    TrimEnd(TrimStart(s))
  }

  /** A string trims to "" exactly when it is all white space. */
  lemma TrimEmptyIffAllSpace(s: string)
    ensures Trim(s) == [] <==> forall k :: 0 <= k < |s| ==> IsSpace(s[k])
  {
    var t := TrimStart(s);
    TrimStartSpec(s);
    TrimEndSpec(t);
    if Trim(s) == [] {
      // TrimEnd(t) == [] makes t all space, and a non-empty t starts with a non-space
      assert t == [];
    }
  }

  /** Lower-casing never touches white space, so it commutes with trimming. */
  lemma {:induction false} TrimStartLower(s: string)
    ensures TrimStart(ToLower(s)) == ToLower(TrimStart(s))
    decreases |s|
  {
    if s != [] {
      var l := ToLower(s);
      assert l == [LowerChar(s[0])] + ToLower(s[1..]);
      assert l[1..] == ToLower(s[1..]);
      if IsSpace(s[0]) {
        TrimStartLower(s[1..]);
      }
    }
  }

  lemma {:induction false} TrimEndLower(s: string)
    ensures TrimEnd(ToLower(s)) == ToLower(TrimEnd(s))
    decreases |s|
  {
    if s != [] {
      var n := |s|;
      var t := s[..n - 1];
      assert s == t + [s[n - 1]];
      ToLowerAppend(t, [s[n - 1]]);
      var l := ToLower(s);
      assert ToLower([s[n - 1]]) == [LowerChar(s[n - 1])];
      assert l[..n - 1] == ToLower(t) && l[n - 1] == LowerChar(s[n - 1]);
      if IsSpace(s[n - 1]) {
        TrimEndLower(t);
      }
    }
  }

  lemma TrimLowerCommute(s: string)
    ensures Trim(ToLower(s)) == ToLower(Trim(s))
  {
    TrimStartLower(s);
    TrimEndLower(TrimStart(s));
  }

  /** toLowerCase is idempotent. */
  lemma ToLowerIdempotent(s: string)
    ensures ToLower(ToLower(s)) == ToLower(s)
  {
    ToLowerChars(s);
    ToLowerChars(ToLower(s));
  }

  /** sub occurs in text starting at index i. */
  predicate OccursAt(text: string, sub: string, i: int) {
    0 <= i && i + |sub| <= |text| && text[i..i + |sub|] == sub
  }

  /** String.prototype.includes: a left-to-right scan of text for sub. */
  predicate Includes(text: string, sub: string)
    decreases |text|
  {
    if |sub| > |text| then false
    else if text[..|sub|] == sub then true
    else |text| > 0 && Includes(text[1..], sub)
  }

  /** The scan finds sub exactly when sub occurs somewhere in text. */
  lemma {:induction false} IncludesIff(text: string, sub: string)
    ensures Includes(text, sub) <==> exists i :: OccursAt(text, sub, i)
    decreases |text|
  {
    if |sub| > |text| {
    } else if text[..|sub|] == sub {
      assert OccursAt(text, sub, 0);
    } else {
      assert |text| > 0;
      IncludesIff(text[1..], sub);
      if exists i :: OccursAt(text, sub, i) {
        var i :| OccursAt(text, sub, i);
        assert i != 0;
        assert text[1..][i - 1..i - 1 + |sub|] == text[i..i + |sub|];
        assert OccursAt(text[1..], sub, i - 1);
      }
      if exists i :: OccursAt(text[1..], sub, i) {
        var i :| OccursAt(text[1..], sub, i);
        assert text[1..][i..i + |sub|] == text[i + 1..i + 1 + |sub|];
        assert OccursAt(text, sub, i + 1);
      }
    }
  }

  /** The empty string is included in every string. */
  lemma IncludesEmpty(text: string)
    ensures Includes(text, "")
  {
  }

  /** String.prototype.endsWith. */
  predicate EndsWith(s: string, suffix: string) {
    |suffix| <= |s| && s[|s| - |suffix|..] == suffix
  }

  /** s ends with suffix exactly when s is something followed by suffix. */
  lemma EndsWithIff(s: string, suffix: string)
    ensures EndsWith(s, suffix) <==> exists p :: p + suffix == s
  {
    if EndsWith(s, suffix) {
      assert s[..|s| - |suffix|] + suffix == s;
    }
    if exists p :: p + suffix == s {
      var p :| p + suffix == s;
      assert s[|p|..] == suffix;
    }
  }
}
