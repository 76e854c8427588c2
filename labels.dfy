/** Column labels: `stringManipulator` (Table.tsx:303-317). A property name
    is cut into words, either before every upper-case letter (when its second
    character is lower-case) or at every underscore, and the words are
    capitalised and joined with single spaces. */
module Labels {
  import opened Text

  /** `s.charAt(1).match(/(?=[a-z])/)` is truthy. */
  predicate CamelMode(s: string)
  {
    |s| >= 2 && IsLower(s[1])
  }

  /** First position q >= 1 of s holding an upper-case letter, or |s|. */
  function NextUpper(s: string, q: nat): (j: nat)
    requires 1 <= q <= |s|
    ensures q <= j <= |s|
    ensures j < |s| ==> IsUpper(s[j])
    ensures forall k :: q <= k < j ==> !IsUpper(s[k])
    decreases |s| - q
  {
    if q == |s| then q else if IsUpper(s[q]) then q else NextUpper(s, q + 1)
  }

  /** `s.split(/(?=[A-Z])/)`: the empty lookahead never splits at position 0,
      so the pieces are cut in front of every upper-case letter after the first
      character. */
  function SplitBeforeUpper(s: string): (pieces: seq<string>)
    ensures |pieces| >= 1
    decreases |s|
  {
    if |s| == 0 then [s]
    else
      var j := NextUpper(s, 1);
      if j == |s| then [s] else [s[..j]] + SplitBeforeUpper(s[j..])
  }

  function Concat(pieces: seq<string>): string
  {
    if pieces == [] then "" else pieces[0] + Concat(pieces[1..])
  }

  /** A piece of a camel-case split: upper-case letters only at its head. */
  predicate UpperOnlyAtHead(p: string)
  {
    forall k :: 1 <= k < |p| ==> !IsUpper(p[k])
  }

  /** The camel-case split loses nothing, every piece after the first starts
      with an upper-case letter, no piece holds an upper-case letter anywhere
      else, and a non-empty name has no empty piece. */
  lemma {:induction false} SplitBeforeUpperSpec(s: string)
    ensures Concat(SplitBeforeUpper(s)) == s
    ensures forall i :: 0 < i < |SplitBeforeUpper(s)| ==>
      |SplitBeforeUpper(s)[i]| > 0 && IsUpper(SplitBeforeUpper(s)[i][0])
    ensures forall p :: p in SplitBeforeUpper(s) ==> UpperOnlyAtHead(p)
    ensures |s| > 0 ==> forall p :: p in SplitBeforeUpper(s) ==> p != []
    decreases |s|
  {
    var pieces := SplitBeforeUpper(s);
    if |s| == 0 {
      assert pieces == [s];
    } else {
      var j := NextUpper(s, 1);
      if j == |s| {
        assert pieces == [s];
        assert Concat(pieces) == s + Concat([]);
      } else {
        var rest := SplitBeforeUpper(s[j..]);
        SplitBeforeUpperSpec(s[j..]);
        assert pieces == [s[..j]] + rest;
        assert pieces[1..] == rest;
        assert s[..j] + s[j..] == s;
        assert UpperOnlyAtHead(s[..j]);
        assert forall p :: p in pieces ==> p == s[..j] || p in rest;
        forall i | 0 < i < |pieces|
          ensures |pieces[i]| > 0 && IsUpper(pieces[i][0])
        {
          if i == 1 {
            FirstPieceHead(s[j..]);
          } else {
            assert pieces[i] == rest[i - 1];
          }
        }
      }
    }
  }

  lemma FirstPieceHead(s: string)
    requires |s| > 0
    ensures |SplitBeforeUpper(s)[0]| > 0 && SplitBeforeUpper(s)[0][0] == s[0]
  {
  }

  /** `x.charAt(0).toUpperCase() + x.slice(1).toLowerCase()` */
  function Capitalize(x: string): (r: string)
    ensures |r| == |x|
  {
    if x == "" then "" else [UpperChar(x[0])] + ToLower(x[1..])
  }

  /** The words the label is made of. */
  function Segments(s: string): (words: seq<string>)
    ensures |words| >= 1
  {
    if CamelMode(s) then SplitBeforeUpper(s) else SplitOn(s, '_')
  }

  function CapitalizeAll(words: seq<string>): (r: seq<string>)
    ensures |r| == |words|
    ensures forall i :: 0 <= i < |words| ==> r[i] == Capitalize(words[i])
  {
    seq(|words|, i requires 0 <= i < |words| => Capitalize(words[i]))
  }

  /** The value `stringManipulator(s)` returns. */
  function Label(s: string): string
  {
    JoinWith(CapitalizeAll(Segments(s)), ' ')
  }

  /** `stringManipulator`: the for loop that appends each capitalised word and,
      between words, one space. */
  method StringManipulator(propertyNameBefore: string) returns (propertyNameAfter: string)
    ensures propertyNameAfter == Label(propertyNameBefore)
  {
    propertyNameAfter := "";
    var x := Segments(propertyNameBefore);
    ghost var words := CapitalizeAll(x);
    var i := 0;
    while i < |x|
      invariant 0 <= i <= |x|
      invariant i == 0 ==> propertyNameAfter == ""
      invariant 0 < i ==> propertyNameAfter == JoinWith(words[..i], ' ') + (if i < |x| then " " else "")
    {
      if i > 0 {
        JoinWithSnoc(words[..i], words[i], ' ');
        assert words[..i + 1] == words[..i] + [words[i]];
      } else {
        assert words[..1] == [words[0]];
      }
      propertyNameAfter := propertyNameAfter + Capitalize(x[i]);
      if i < |x| - 1 {
        propertyNameAfter := propertyNameAfter + " ";
      }
      i := i + 1;
    }
    assert words[..|x|] == words;
  }

  /** Reference definition of an underscore-mode label, character by
      character: an underscore becomes a space, a character at the start of a
      word is upper-cased and every other character lower-cased. */
  function TitleCase(s: string): (r: string)
    ensures |r| == |s|
  {
    seq(|s|, k requires 0 <= k < |s| =>
      if s[k] == '_' then ' '
      else if k == 0 || s[k - 1] == '_' then UpperChar(s[k])
      else LowerChar(s[k]))
  }

  lemma CapitalizeWord(a: string)
    requires '_' !in a
    ensures Capitalize(a) == TitleCase(a)
  {
    if a != "" {
      var c, t := Capitalize(a), TitleCase(a);
      forall k | 0 <= k < |a| ensures c[k] == t[k] {
        assert a[k] in a;
        if k > 0 {
          assert a[k - 1] in a;
          assert c[k] == ToLower(a[1..])[k - 1] == LowerChar(a[k]);
        }
      }
      assert c == t;
    }
  }

  lemma TitleCaseSplit(a: string, b: string)
    requires '_' !in a
    ensures TitleCase(a + "_" + b) == TitleCase(a) + " " + TitleCase(b)
  {
    var s := a + "_" + b;
    var r := TitleCase(a) + " " + TitleCase(b);
    forall k | 0 <= k < |s| ensures TitleCase(s)[k] == r[k] {
      if k < |a| {
        assert s[k] == a[k];
        assert a[k] in a;
        if k > 0 {
          assert s[k - 1] == a[k - 1];
        }
      } else if k > |a| {
        assert s[k] == b[k - |a| - 1];
        if k > |a| + 1 {
          assert s[k - 1] == b[k - |a| - 2];
        }
      }
    }
  }

  lemma CapitalizeAllCons(a: string, words: seq<string>)
    ensures CapitalizeAll([a] + words) == [Capitalize(a)] + CapitalizeAll(words)
  {
    var l := CapitalizeAll([a] + words);
    var r := [Capitalize(a)] + CapitalizeAll(words);
    forall i | 0 <= i < |l| ensures l[i] == r[i] {
      if i > 0 {
        assert ([a] + words)[i] == words[i - 1];
      }
    }
  }

  lemma JoinWithCons(a: string, parts: seq<string>, x: char)
    requires |parts| >= 1
    ensures JoinWith([a] + parts, x) == a + [x] + JoinWith(parts, x)
  {
    assert ([a] + parts)[1..] == parts;
  }

  /** Outside camel mode the label is the character-by-character title case
      of the name. */
  lemma {:induction false} UnderscoreLabel(s: string)
    ensures JoinWith(CapitalizeAll(SplitOn(s, '_')), ' ') == TitleCase(s)
    decreases |s|
  {
    var j := IndexOfChar(s, '_');
    if j == |s| {
      assert '_' !in s by {
        assert forall i :: 0 <= i < |s| ==> s[i] != '_';
      }
      SplitWithout(s, '_');
      assert CapitalizeAll([s]) == [Capitalize(s)];
      CapitalizeWord(s);
    } else {
      var a, b := s[..j], s[j + 1..];
      assert '_' !in a by {
        assert forall i :: 0 <= i < |a| ==> a[i] == s[i];
      }
      assert s == a + "_" + b;
      SplitFirst(a, b, '_');
      CapitalizeAllCons(a, SplitOn(b, '_'));
      JoinWithCons(Capitalize(a), CapitalizeAll(SplitOn(b, '_')), ' ');
      UnderscoreLabel(b);
      CapitalizeWord(a);
      TitleCaseSplit(a, b);
    }
  }

  lemma LabelOutsideCamelMode(s: string)
    requires !CamelMode(s)
    ensures Label(s) == TitleCase(s)
  {
    UnderscoreLabel(s);
  }

  /** The table labels `item.toUpperCase()`, whose second character is never
      a lower-case letter, so the camel-case branch never runs there. */
  lemma UpperCaseNeverCamel(key: string)
    ensures !CamelMode(ToUpper(key))
  {
  }

  /** Hence a column label is the title case of the upper-cased key. */
  lemma ColumnLabelIsTitleCase(key: string)
    ensures Label(ToUpper(key)) == TitleCase(ToUpper(key))
  {
    UpperCaseNeverCamel(key);
    LabelOutsideCamelMode(ToUpper(key));
  }

  lemma {:induction false} JoinWithLength(parts: seq<string>, x: char)
    requires |parts| >= 1
    ensures |JoinWith(parts, x)| == |Concat(parts)| + |parts| - 1
  {
    if |parts| > 1 {
      JoinWithLength(parts[1..], x);
    }
  }

  lemma {:induction false} CapitalizeAllLength(words: seq<string>)
    ensures |Concat(CapitalizeAll(words))| == |Concat(words)|
  {
    if words != [] {
      assert CapitalizeAll(words)[1..] == CapitalizeAll(words[1..]);
      CapitalizeAllLength(words[1..]);
    }
  }

  /** In camel mode every cut adds one space and nothing is lost: the label is
      one character longer than the name per word boundary. */
  lemma CamelLabelLength(s: string)
    requires CamelMode(s)
    ensures |Label(s)| == |s| + |SplitBeforeUpper(s)| - 1
  {
    SplitBeforeUpperSpec(s);
    CapitalizeAllLength(SplitBeforeUpper(s));
    JoinWithLength(CapitalizeAll(SplitBeforeUpper(s)), ' ');
  }

  lemma TitleCaseExample()
    ensures TitleCase("MANUFACTURER_ADDRESS") == "Manufacturer Address"
  {
    assert "MANUFACTURER_ADDRESS" == "MANUFACTURER" + "_" + "ADDRESS";
    assert '_' !in "MANUFACTURER";
    TitleCaseSplit("MANUFACTURER", "ADDRESS");
    TitleCaseWordExamples();
  }

  lemma TitleCaseWordExamples()
    ensures TitleCase("MANUFACTURER") == "Manufacturer"
    ensures TitleCase("ADDRESS") == "Address"
  {
    var t := TitleCase("MANUFACTURER");
    assert t[0] == 'M' && t[1] == 'a' && t[2] == 'n' && t[3] == 'u' && t[4] == 'f' && t[5] == 'a';
    assert t[6] == 'c' && t[7] == 't' && t[8] == 'u' && t[9] == 'r' && t[10] == 'e' && t[11] == 'r';
    var u := TitleCase("ADDRESS");
    assert u[0] == 'A' && u[1] == 'd' && u[2] == 'd' && u[3] == 'r';
    assert u[4] == 'e' && u[5] == 's' && u[6] == 's';
  }


  lemma LabelExampleUnderscore()
    ensures Label("MANUFACTURER_ADDRESS") == "Manufacturer Address"
  {
    NotCamelExample();
    LabelOutsideCamelMode("MANUFACTURER_ADDRESS");
    TitleCaseExample();
  }

  lemma NotCamelExample()
    ensures !CamelMode("MANUFACTURER_ADDRESS")
  {
    assert "MANUFACTURER_ADDRESS"[1] == 'A';
  }

  lemma SplitBeforeUpperExample()
    ensures SplitBeforeUpper("manufacturerAddress") == ["manufacturer", "Address"]
  {
    var s := "manufacturerAddress";
    assert forall k :: 1 <= k < 12 ==> !IsUpper(s[k]);
    assert IsUpper(s[12]);
    assert NextUpper(s, 1) == 12;
    assert s[..12] == "manufacturer" && s[12..] == "Address";
    assert NextUpper("Address", 1) == 7;
  }

  /** A name of two segments is labelled by its two capitalised words. */
  lemma LabelOfTwoSegments(s: string, a: string, b: string)
    requires Segments(s) == [a, b]
    ensures Label(s) == Capitalize(a) + " " + Capitalize(b)
  {
    var w := CapitalizeAll([a, b]);
    assert w == [Capitalize(a), Capitalize(b)];
    assert w[1..] == [Capitalize(b)];
    assert JoinWith(w, ' ') == w[0] + [' '] + JoinWith(w[1..], ' ');
  }

  lemma SegmentsCamelExample()
    ensures Segments("manufacturerAddress") == ["manufacturer", "Address"]
  {
    assert CamelMode("manufacturerAddress") by {
      assert "manufacturerAddress"[1] == 'a';
    }
    SplitBeforeUpperExample();
  }

  lemma LabelExampleCamel()
    ensures Label("manufacturerAddress") == "Manufacturer Address"
  {
    SegmentsCamelExample();
    LabelOfTwoSegments("manufacturerAddress", "manufacturer", "Address");
    CapitalizeExample();
  }

  /** A word whose tail has no upper-case letter only changes at its head. */
  lemma CapitalizeLowerTail(x: string)
    requires x != ""
    requires forall k :: 1 <= k < |x| ==> !IsUpper(x[k])
    ensures Capitalize(x) == [UpperChar(x[0])] + x[1..]
  {
    assert ToLower(x[1..]) == x[1..];
  }

  lemma CapitalizeExample()
    ensures Capitalize("manufacturer") == "Manufacturer"
    ensures Capitalize("Address") == "Address"
  {
    var c := Capitalize("manufacturer");
    assert c[0] == 'M' && c[1] == 'a' && c[2] == 'n' && c[3] == 'u' && c[4] == 'f' && c[5] == 'a';
    assert c[6] == 'c' && c[7] == 't' && c[8] == 'u' && c[9] == 'r' && c[10] == 'e' && c[11] == 'r';
    var d := Capitalize("Address");
    assert d[0] == 'A' && d[1] == 'd' && d[2] == 'd' && d[3] == 'r';
    assert d[4] == 'e' && d[5] == 's' && d[6] == 's';
  }

  lemma LabelExampleEmpty()
    ensures Label("") == ""
  {
  }

  lemma LabelExampleUpperCased()
    ensures Label(ToUpper("bBoxHigh")) == "Bboxhigh"
  {
    UpperCaseExample();
    LabelOutsideCamelMode("BBOXHIGH");
    TitleCaseUpperExample();
  }

  lemma UpperCaseExample()
    ensures ToUpper("bBoxHigh") == "BBOXHIGH"
  {
    var u := ToUpper("bBoxHigh");
    assert u[0] == 'B' && u[1] == 'B' && u[2] == 'O' && u[3] == 'X';
    assert u[4] == 'H' && u[5] == 'I' && u[6] == 'G' && u[7] == 'H';
  }

  lemma TitleCaseUpperExample()
    ensures TitleCase("BBOXHIGH") == "Bboxhigh"
  {
    var t := TitleCase("BBOXHIGH");
    assert t[0] == 'B' && t[1] == 'b' && t[2] == 'o' && t[3] == 'x';
    assert t[4] == 'h' && t[5] == 'i' && t[6] == 'g' && t[7] == 'h';
  }

}
