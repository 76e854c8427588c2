/** The pieces of the JavaScript string library that the components use:
    case mapping, the `\s` class, `replace`, `split` and `join` with a
    one-character separator, and the key normalisation built from them. */
module Text {

  predicate IsUpper(c: char) { 'A' <= c <= 'Z' }

  predicate IsLower(c: char) { 'a' <= c <= 'z' }

  /** `toUpperCase` on one character; only ASCII letters change. */
  function UpperChar(c: char): char
  {
    if IsLower(c) then (c as int - 32) as char else c
  }

  /** `toLowerCase` on one character; only ASCII letters change. */
  function LowerChar(c: char): char
  {
    if IsUpper(c) then (c as int + 32) as char else c
  }

  function ToUpper(s: string): (r: string)
    ensures |r| == |s|
  {
    seq(|s|, i requires 0 <= i < |s| => UpperChar(s[i]))
  }

  function ToLower(s: string): (r: string)
    ensures |r| == |s|
  {
    seq(|s|, i requires 0 <= i < |s| => LowerChar(s[i]))
  }

  /** The characters of the regular-expression class `\s`: the WhiteSpace
      and LineTerminator code points of ECMAScript. */
  predicate IsWhitespace(c: char)
  {
    || c == '\t' || c == '\n' || c == '\U{B}' || c == '\U{C}' || c == '\r' || c == ' '
    || c == '\U{A0}' || c == '\U{1680}' || ('\U{2000}' <= c <= '\U{200A}')
    || c == '\U{2028}' || c == '\U{2029}' || c == '\U{202F}' || c == '\U{205F}'
    || c == '\U{3000}' || c == '\U{FEFF}'
  }

  /** `s.replace(/\s/g, '')` */
  function RemoveWhitespace(s: string): (r: string)
    ensures forall c :: c in r <==> c in s && !IsWhitespace(c)
  {
    if s == [] then []
    else
      assert forall c :: c in s <==> c == s[0] || c in s[1..] by {
        assert s == [s[0]] + s[1..];
      }
      (if IsWhitespace(s[0]) then [] else [s[0]]) + RemoveWhitespace(s[1..])
  }

  /** `s.replace(/x/g, '')` for a single literal character x */
  function RemoveChar(s: string, x: char): (r: string)
    ensures forall c :: c in r <==> c in s && c != x
  {
    if s == [] then []
    else
      assert forall c :: c in s <==> c == s[0] || c in s[1..] by {
        assert s == [s[0]] + s[1..];
      }
      (if s[0] == x then [] else [s[0]]) + RemoveChar(s[1..], x)
  }

  /** A name in normal form: no upper-case letter, no white space, no underscore. */
  predicate IsNormalized(s: string)
  {
    forall c :: c in s ==> !IsUpper(c) && !IsWhitespace(c) && c != '_'
  }

  /** `s.toLowerCase().replace(/\s/g, '').replace(/_/g, '')`: the chain that
      the table applies to record keys and the sample application applies to
      configured property names. It keeps exactly the characters of the
      lower-cased name that are neither white space nor underscores. */
  function NormalizeName(s: string): (r: string)
    ensures IsNormalized(r)
    ensures |r| <= |s|
    ensures forall c :: c in r <==> c in ToLower(s) && !IsWhitespace(c) && c != '_'
  {
    RemoveWhitespaceShrinks(ToLower(s));
    RemoveCharShrinks(RemoveWhitespace(ToLower(s)), '_');
    RemoveChar(RemoveWhitespace(ToLower(s)), '_')
  }

  lemma RemoveWhitespaceShrinks(s: string)
    ensures |RemoveWhitespace(s)| <= |s|
  {
  }

  lemma RemoveCharShrinks(s: string, x: char)
    ensures |RemoveChar(s, x)| <= |s|
  {
  }

  lemma {:induction false} RemoveWhitespaceKeeps(s: string)
    requires forall c :: c in s ==> !IsWhitespace(c)
    ensures RemoveWhitespace(s) == s
  {
    if s != [] {
      assert s[0] in s;
      assert forall c :: c in s[1..] ==> c in s;
      RemoveWhitespaceKeeps(s[1..]);
      assert [s[0]] + s[1..] == s;
    }
  }

  lemma {:induction false} RemoveCharKeeps(s: string, x: char)
    requires x !in s
    ensures RemoveChar(s, x) == s
  {
    if s != [] {
      assert s[0] in s;
      assert forall c :: c in s[1..] ==> c in s;
      RemoveCharKeeps(s[1..], x);
      assert [s[0]] + s[1..] == s;
    }
  }

  /** A name already in normal form is left unchanged by the normalisation. */
  lemma NormalizedIsFixed(s: string)
    requires IsNormalized(s)
    ensures NormalizeName(s) == s
  {
    forall i | 0 <= i < |s| ensures ToLower(s)[i] == s[i] {
      assert s[i] in s;
    }
    assert ToLower(s) == s;
    RemoveWhitespaceKeeps(s);
    RemoveCharKeeps(s, '_');
  }

  /** Normalising twice gives the same name as normalising once. */
  lemma NormalizeNameIdempotent(s: string)
    ensures NormalizeName(NormalizeName(s)) == NormalizeName(s)
  {
    NormalizedIsFixed(NormalizeName(s));
  }

  /** First index of x in s, or |s| when x does not occur. */
  function IndexOfChar(s: string, x: char): (j: nat)
    ensures j <= |s|
    ensures j < |s| ==> s[j] == x
    ensures forall i :: 0 <= i < j ==> s[i] != x
  {
    if s == [] then 0 else if s[0] == x then 0 else 1 + IndexOfChar(s[1..], x)
  }

  /** `s.split(x)` for a one-character string separator. */
  function SplitOn(s: string, x: char): (parts: seq<string>)
    ensures |parts| >= 1
    ensures forall p :: p in parts ==> x !in p
    decreases |s|
  {
    var j := IndexOfChar(s, x);
    if j == |s| then [s] else [s[..j]] + SplitOn(s[j + 1..], x)
  }

  /** `parts.join(x)` */
  function JoinWith(parts: seq<string>, x: char): string
  {
    if |parts| == 0 then "" else if |parts| == 1 then parts[0] else parts[0] + [x] + JoinWith(parts[1..], x)
  }

  /** Joining the pieces of a split restores the string. */
  lemma {:induction false} JoinSplit(s: string, x: char)
    ensures JoinWith(SplitOn(s, x), x) == s
    decreases |s|
  {
    var j := IndexOfChar(s, x);
    if j < |s| {
      var rest := SplitOn(s[j + 1..], x);
      JoinSplit(s[j + 1..], x);
      assert SplitOn(s, x) == [s[..j]] + rest;
      assert ([s[..j]] + rest)[1..] == rest;
      assert s == s[..j] + [x] + s[j + 1..];
    }
  }

  lemma {:induction false} IndexOfCharAfter(a: string, b: string, x: char)
    requires x !in a
    ensures IndexOfChar(a + [x] + b, x) == |a|
  {
    var s := a + [x] + b;
    var j := IndexOfChar(s, x);
    assert s[|a|] == x;
    assert forall i :: 0 <= i < |a| ==> s[i] == a[i] && a[i] in a;
  }

  lemma SplitWithout(s: string, x: char)
    requires x !in s
    ensures SplitOn(s, x) == [s]
  {
    assert forall i :: 0 <= i < |s| ==> s[i] in s;
  }

  lemma SplitFirst(a: string, b: string, x: char)
    requires x !in a
    ensures SplitOn(a + [x] + b, x) == [a] + SplitOn(b, x)
  {
    var s := a + [x] + b;
    IndexOfCharAfter(a, b, x);
    assert s[..|a|] == a;
    assert s[|a| + 1..] == b;
  }

  /** Splitting a join of pieces that do not contain the separator gives the pieces back. */
  lemma {:induction false} SplitJoin(parts: seq<string>, x: char)
    requires |parts| >= 1
    requires forall i :: 0 <= i < |parts| ==> x !in parts[i]
    ensures SplitOn(JoinWith(parts, x), x) == parts
  {
    if |parts| == 1 {
      SplitWithout(parts[0], x);
    } else {
      var rest := parts[1..];
      SplitJoin(rest, x);
      SplitJoinStep(parts[0], rest, x);
    }
  }

  lemma SplitJoinStep(a: string, rest: seq<string>, x: char)
    requires x !in a && |rest| >= 1
    requires SplitOn(JoinWith(rest, x), x) == rest
    ensures SplitOn(JoinWith([a] + rest, x), x) == [a] + rest
  {
    assert ([a] + rest)[1..] == rest;
    SplitFirst(a, JoinWith(rest, x), x);
  }


  /** Appending one piece to a join, as a loop that concatenates does. */
  lemma {:induction false} JoinWithSnoc(parts: seq<string>, last: string, x: char)
    requires |parts| >= 1
    ensures JoinWith(parts + [last], x) == JoinWith(parts, x) + [x] + last
  {
    if |parts| == 1 {
      assert (parts + [last])[1..] == [last];
    } else {
      assert (parts + [last])[1..] == parts[1..] + [last];
      JoinWithSnoc(parts[1..], last, x);
    }
  }
}
