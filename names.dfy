/**
 * Register's name resolution: the legacy combined `name` is split with Go's
 * strings.Fields and re-joined with strings.Join; the stored `Name` is built with
 * strings.TrimSpace. Strings are sequences of Unicode code points (Go's runes).
 */
module Names {
  import opened Wrappers

  /** Go's unicode.IsSpace: the Unicode White_Space property. */
  predicate IsSpace(c: char) {
    var n := c as int;
    (0x09 <= n <= 0x0D) || n == 0x20 || n == 0x85 || n == 0xA0 || n == 0x1680
    || (0x2000 <= n <= 0x200A) || n == 0x2028 || n == 0x2029 || n == 0x202F
    || n == 0x205F || n == 0x3000
  }

  /** A field: non-empty and free of white space. */
  predicate IsWord(w: string) {
    w != [] && forall i :: 0 <= i < |w| ==> !IsSpace(w[i])
  }

  predicate AllSpace(s: string) {
    forall i :: 0 <= i < |s| ==> IsSpace(s[i])
  }

  /** Length of the longest white-space-free prefix of s. */
  function WordLen(s: string): (n: nat)
    ensures n <= |s|
    ensures forall i :: 0 <= i < n ==> !IsSpace(s[i])
    ensures n == |s| || IsSpace(s[n])
  {
    if s == [] || IsSpace(s[0]) then 0 else 1 + WordLen(s[1..])
  }

  /** strings.Fields: the maximal runs of non-white-space characters, in order. */
  function Fields(s: string): (ws: seq<string>)
    ensures forall i :: 0 <= i < |ws| ==> IsWord(ws[i])
    decreases |s|
  {
    if s == [] then []
    else if IsSpace(s[0]) then Fields(s[1..])
    else
      var n := WordLen(s);
      [s[..n]] + Fields(s[n..])
  }

  /** strings.Join. */
  function Join(ws: seq<string>, sep: string): string {
    if |ws| == 0 then ""
    else if |ws| == 1 then ws[0]
    else ws[0] + sep + Join(ws[1..], sep)
  }

  /** The number of white-space characters s starts with. */
  function LeadingSpace(s: string): (n: nat)
    ensures n <= |s|
    ensures forall k :: 0 <= k < n ==> IsSpace(s[k])
    ensures n == |s| || !IsSpace(s[n])
  {
    if s != [] && IsSpace(s[0]) then 1 + LeadingSpace(s[1..]) else 0
  }

  /** The number of white-space characters s ends with. */
  function TrailingSpace(s: string): (n: nat)
    ensures n <= |s|
    ensures forall k :: |s| - n <= k < |s| ==> IsSpace(s[k])
    ensures n == |s| || !IsSpace(s[|s| - n - 1])
  {
    if s != [] && IsSpace(s[|s| - 1]) then 1 + TrailingSpace(s[..|s| - 1]) else 0
  }

  /** s[i..j] has only white space before and after it in s. */
  predicate SpaceAround(s: string, i: int, j: int) {
    0 <= i <= j <= |s| && forall k :: 0 <= k < |s| && !(i <= k < j) ==> IsSpace(s[k])
  }

  /**
   * strings.TrimSpace (TrimLeft, then TrimRight, of unicode.IsSpace): the result
   * is a slice of the input with only white space before and after it, and it
   * neither starts nor ends with white space.
   */
  function TrimSpace(s: string): (t: string)
    ensures t == [] || (!IsSpace(t[0]) && !IsSpace(t[|t| - 1]))
    ensures |t| <= |s|
    ensures exists i, j :: SpaceAround(s, i, j) && t == s[i..j]
  {
    var i := LeadingSpace(s);
    var j := if i == |s| then i else |s| - TrailingSpace(s);
    s[i..j]
  }

  /** The first and last name a registration ends up with. */
  datatype NameParts = NameParts(first: string, last: string)

  /**
   * Prefer explicit first/last names; otherwise split the legacy name. A name
   * that is only white space yields empty parts and is not rejected; None is
   * the "first_name/last_name or name is required" rejection.
   */
  function ResolveName(first: string, last: string, name: string): (r: Option<NameParts>)
    ensures r.None? <==> first == "" && last == "" && name == ""
    ensures first != "" || last != "" ==> r == Some(NameParts(first, last))
  {
    if first == "" && last == "" then
      if name != "" then
        var parts := Fields(name);
        if |parts| == 1 then Some(NameParts(parts[0], ""))
        else if |parts| > 1 then Some(NameParts(Join(parts[..|parts| - 1], " "), parts[|parts| - 1]))
        else Some(NameParts(first, last))
      else None
    else Some(NameParts(first, last))
  }

  // ---------------------------------------------------------------- lemmas

  lemma {:induction false} WordLenOfWordThenSpace(w: string, rest: string)
    requires forall i :: 0 <= i < |w| ==> !IsSpace(w[i])
    requires rest == [] || IsSpace(rest[0])
    ensures WordLen(w + rest) == |w|
  {
    if w != [] {
      assert (w + rest)[1..] == w[1..] + rest;
      WordLenOfWordThenSpace(w[1..], rest);
    } else {
      assert w + rest == rest;
    }
  }

  lemma FieldsSkipsLeadingSpace(c: char, s: string)
    requires IsSpace(c)
    ensures Fields([c] + s) == Fields(s)
  {
    assert ([c] + s)[1..] == s;
  }

  lemma FieldsOfWordThen(w: string, rest: string)
    requires IsWord(w)
    requires rest == [] || IsSpace(rest[0])
    ensures Fields(w + rest) == [w] + Fields(rest)
  {
    WordLenOfWordThenSpace(w, rest);
    var s := w + rest;
    assert s[..|w|] == w;
    assert s[|w|..] == rest;
  }

  /** Splitting re-joined words gives the words back. */
  lemma {:induction false} FieldsOfJoin(ws: seq<string>)
    requires forall i :: 0 <= i < |ws| ==> IsWord(ws[i])
    ensures Fields(Join(ws, " ")) == ws
  {
    if |ws| == 0 {
    } else if |ws| == 1 {
      FieldsOfWordThen(ws[0], "");
      assert ws[0] + "" == ws[0];
    } else {
      var rest := Join(ws[1..], " ");
      assert Join(ws, " ") == ws[0] + (" " + rest);
      FieldsOfWordThen(ws[0], " " + rest);
      FieldsSkipsLeadingSpace(' ', rest);
      FieldsOfJoin(ws[1..]);
      assert ws == [ws[0]] + ws[1..];
    }
  }

  /** A string has no fields exactly when it is all white space. */
  lemma {:induction false} FieldsEmptyIff(s: string)
    ensures Fields(s) == [] <==> AllSpace(s)
    decreases |s|
  {
    if s != [] {
      FieldsEmptyIff(s[1..]);
      if IsSpace(s[0]) {
        assert AllSpace(s) <==> AllSpace(s[1..]) by {
          if AllSpace(s[1..]) {
            forall i | 0 <= i < |s| ensures IsSpace(s[i]) {
              if i > 0 { assert s[i] == s[1..][i - 1]; }
            }
          }
        }
      }
    }
  }

  /** Join splits off its last element. */
  lemma {:induction false} JoinSplitLast(ws: seq<string>, sep: string)
    requires |ws| >= 2
    ensures Join(ws, sep) == Join(ws[..|ws| - 1], sep) + sep + ws[|ws| - 1]
  {
    if |ws| > 2 {
      JoinSplitLast(ws[1..], sep);
      assert ws[1..][..|ws| - 2] == ws[..|ws| - 1][1..];
    } else {
      assert ws[..1] == [ws[0]];
    }
  }

  /** A join of words starts and ends with the outer words' edge characters. */
  lemma {:induction false} JoinEdges(ws: seq<string>)
    requires |ws| >= 1
    requires forall i :: 0 <= i < |ws| ==> IsWord(ws[i])
    ensures Join(ws, " ") != [] && IsWord(ws[0]) && IsWord(ws[|ws| - 1])
    ensures Join(ws, " ")[0] == ws[0][0]
    ensures Join(ws, " ")[|Join(ws, " ")| - 1] == ws[|ws| - 1][|ws[|ws| - 1]| - 1]
  {
    if |ws| > 1 {
      JoinEdges(ws[1..]);
    }
  }

  /**
   * The slice TrimSpace keeps is determined: a slice with only white space
   * around it that neither starts nor ends with white space is the result.
   */
  lemma TrimSpaceIsThatSlice(s: string, i: int, j: int)
    requires SpaceAround(s, i, j)
    requires i < j ==> !IsSpace(s[i]) && !IsSpace(s[j - 1])
    ensures TrimSpace(s) == s[i..j]
  {
    var n := LeadingSpace(s);
    if i < j {
      assert n == i;
      var m := TrailingSpace(s);
      assert |s| - m == j;
    } else {
      assert n == |s|;
    }
  }

  lemma TrimSpaceKeepsTrimmed(s: string)
    requires s == [] || (!IsSpace(s[0]) && !IsSpace(s[|s| - 1]))
    ensures TrimSpace(s) == s
  {
    TrimSpaceIsThatSlice(s, 0, |s|);
  }

  /** A name that is only white space is accepted and gives empty parts. */
  lemma ResolveBlankName(name: string)
    requires name != "" && AllSpace(name)
    ensures ResolveName("", "", name) == Some(NameParts("", ""))
  {
    FieldsEmptyIff(name);
  }

  /** Leading white space does not change the fields. */
  lemma {:induction false} FieldsSkipsSpaces(a: string, s: string)
    requires AllSpace(a)
    ensures Fields(a + s) == Fields(s)
    decreases |a|
  {
    if a != [] {
      assert a + s == [a[0]] + (a[1..] + s);
      assert IsSpace(a[0]);
      assert AllSpace(a[1..]) by {
        forall i | 0 <= i < |a| - 1 ensures IsSpace(a[1..][i]) {
          assert a[1..][i] == a[i + 1];
        }
      }
      FieldsSkipsLeadingSpace(a[0], a[1..] + s);
      FieldsSkipsSpaces(a[1..], s);
    } else {
      assert a + s == s;
    }
  }

  /**
   * A one-word legacy name (one word with only white space around it) becomes
   * the first name; the last name is empty.
   */
  lemma ResolveOneWord(a: string, w: string, b: string)
    requires IsWord(w) && AllSpace(a) && AllSpace(b)
    ensures ResolveName("", "", a + w + b) == Some(NameParts(w, ""))
  {
    var name := a + w + b;
    assert name == a + (w + b);
    FieldsSkipsSpaces(a, w + b);
    FieldsOfWordThen(w, b);
    FieldsEmptyIff(b);
    assert Fields(name) == [w];
  }

  /** Runs of white space that separate words: each non-empty and all white space. */
  predicate AreGaps(gaps: seq<string>) {
    forall i :: 0 <= i < |gaps| ==> gaps[i] != [] && AllSpace(gaps[i])
  }

  /** The words ws with gaps[i] between ws[i] and ws[i + 1]. */
  function Spaced(ws: seq<string>, gaps: seq<string>): string
    requires |ws| >= 1 && |gaps| == |ws| - 1
  {
    if |ws| == 1 then ws[0] else ws[0] + gaps[0] + Spaced(ws[1..], gaps[1..])
  }

  /** Splitting words separated by any white-space runs, and followed by white space, gives the words back. */
  lemma {:induction false} FieldsOfSpaced(ws: seq<string>, gaps: seq<string>, b: string)
    requires |ws| >= 1 && |gaps| == |ws| - 1
    requires forall i :: 0 <= i < |ws| ==> IsWord(ws[i])
    requires AreGaps(gaps) && AllSpace(b)
    ensures Fields(Spaced(ws, gaps) + b) == ws
  {
    if |ws| == 1 {
      FieldsOfWordThen(ws[0], b);
      FieldsEmptyIff(b);
    } else {
      var rest := Spaced(ws[1..], gaps[1..]) + b;
      assert Spaced(ws, gaps) + b == ws[0] + (gaps[0] + rest);
      assert IsSpace(gaps[0][0]);
      FieldsOfWordThen(ws[0], gaps[0] + rest);
      FieldsSkipsSpaces(gaps[0], rest);
      assert AreGaps(gaps[1..]) by {
        forall i | 0 <= i < |gaps| - 1 ensures gaps[1..][i] != [] && AllSpace(gaps[1..][i]) {
          assert gaps[1..][i] == gaps[i + 1];
        }
      }
      FieldsOfSpaced(ws[1..], gaps[1..], b);
      assert ws == [ws[0]] + ws[1..];
    }
  }

  /** White space before, between and after the words does not change the fields. */
  lemma FieldsOfSpacedName(a: string, ws: seq<string>, gaps: seq<string>, b: string)
    requires |ws| >= 1 && |gaps| == |ws| - 1
    requires forall i :: 0 <= i < |ws| ==> IsWord(ws[i])
    requires AreGaps(gaps) && AllSpace(a) && AllSpace(b)
    ensures Fields(a + Spaced(ws, gaps) + b) == ws
  {
    assert a + Spaced(ws, gaps) + b == a + (Spaced(ws, gaps) + b);
    FieldsSkipsSpaces(a, Spaced(ws, gaps) + b);
    FieldsOfSpaced(ws, gaps, b);
  }

  /**
   * A legacy name of several words, with any white space around and between
   * them, gives all but the last word, joined by single spaces, as the first
   * name and the last word as the last name.
   */
  lemma ResolveManyWords(a: string, ws: seq<string>, gaps: seq<string>, b: string)
    requires |ws| >= 2 && |gaps| == |ws| - 1
    requires forall i :: 0 <= i < |ws| ==> IsWord(ws[i])
    requires AreGaps(gaps) && AllSpace(a) && AllSpace(b)
    ensures ResolveName("", "", a + Spaced(ws, gaps) + b) ==
            Some(NameParts(Join(ws[..|ws| - 1], " "), ws[|ws| - 1]))
  {
    FieldsOfSpacedName(a, ws, gaps, b);
  }

  /**
   * Registering with only a legacy name stores, as Name, that name with its
   * white space normalised: the fields joined by single spaces.
   */
  lemma {:induction false} StoredNameIsNormalisedLegacyName(name: string)
    requires name != ""
    ensures ResolveName("", "", name).Some?
    ensures var p := ResolveName("", "", name).value;
            TrimSpace(p.first + " " + p.last) == Join(Fields(name), " ")
  {
    var ws := Fields(name);
    var p := ResolveName("", "", name).value;
    if |ws| == 0 {
      assert p.first + " " + p.last == " ";
      TrimSpaceIsThatSlice(" ", 1, 1);
    } else if |ws| == 1 {
      var w := ws[0];
      assert p.first + " " + p.last == w + " ";
      TrimSpaceIsThatSlice(w + " ", 0, |w|);
      assert (w + " ")[0..|w|] == w;
    } else {
      JoinSplitLast(ws, " ");
      JoinEdges(ws);
      TrimSpaceKeepsTrimmed(Join(ws, " "));
    }
  }

  /** The integration test's registration name "Alice". */
  lemma AliceIsAOneWordName()
    ensures ResolveName("", "", "Alice") == Some(NameParts("Alice", ""))
  {
    var w := "Alice";
    assert IsWord(w);
    ResolveOneWord("", w, "");
    assert "" + w + "" == w;
  }
}
