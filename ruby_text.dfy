/**
 * The Ruby String operations the template relies on, restricted to what it
 * uses: the character class [a-zA-Z0-9_], `gsub` of a character class by a
 * single character, `split` on a one-character string and on /\s+/,
 * `capitalize`, `join`, `strip`, `include?` and `gsub` of a literal string.
 *
 * Case mapping is ASCII only. The template only capitalizes text that has
 * already been reduced to [a-zA-Z0-9_ ], where ASCII and Unicode case
 * mapping agree.
 */
module RubyText {

  predicate IsLower(c: char) { 'a' <= c <= 'z' }
  predicate IsUpper(c: char) { 'A' <= c <= 'Z' }
  predicate IsDigit(c: char) { '0' <= c <= '9' }
  predicate IsAlnum(c: char) { IsLower(c) || IsUpper(c) || IsDigit(c) }

  /** Membership in the regular-expression class [a-zA-Z0-9_]. */
  predicate IsWordChar(c: char) { IsAlnum(c) || c == '_' }

  /** Ruby's \s: space, tab, line feed, vertical tab, form feed, carriage return. */
  predicate IsSpace(c: char) {
    c == ' ' || c == '\t' || c == '\n' || c == '\U{000B}' || c == '\U{000C}' || c == '\r'
  }

  /** What String#strip removes at either end: \s and NUL. */
  predicate IsStripChar(c: char) { IsSpace(c) || c == '\0' }

  function Upcase(c: char): char {
    if IsLower(c) then (c as int - 32) as char else c
  }

  function Downcase(c: char): char {
    if IsUpper(c) then (c as int + 32) as char else c
  }

  function DowncaseAll(s: string): (t: string)
    ensures |t| == |s|
    ensures forall i :: 0 <= i < |s| ==> t[i] == Downcase(s[i])
  {
    seq(|s|, i requires 0 <= i < |s| => Downcase(s[i]))
  }

  /** Downcasing a character keeps it in, or out of, each class the template uses. */
  lemma DowncaseClasses(c: char)
    ensures IsAlnum(Downcase(c)) <==> IsAlnum(c)
    ensures IsWordChar(Downcase(c)) <==> IsWordChar(c)
    ensures Downcase(c) == ' ' <==> c == ' '
    ensures Downcase(Upcase(c)) == Downcase(c)
    ensures !IsUpper(Downcase(c)) && !IsLower(Upcase(c))
  {
  }

  lemma DowncaseAllAppend(a: string, b: string)
    ensures DowncaseAll(a + b) == DowncaseAll(a) + DowncaseAll(b)
  {
  }

  /**
   * String#capitalize: the first character upper case, the rest lower case.
   * Apart from case, the word is unchanged.
   */
  function Capitalize(p: string): (r: string)
    ensures |r| == |p|
    ensures DowncaseAll(r) == DowncaseAll(p)
    ensures p != [] ==> !IsLower(r[0])
    ensures forall j :: 0 < j < |r| ==> !IsUpper(r[j])
  {
    if p == [] then []
    else
      var r := [Upcase(p[0])] + DowncaseAll(p[1..]);
      DowncaseClasses(p[0]);
      assert DowncaseAll(r) == DowncaseAll(p) by {
        forall j | 1 <= j < |p| ensures Downcase(r[j]) == Downcase(p[j]) {
          DowncaseClasses(p[j]);
        }
      }
      r
  }

  function CapitalizeEach(parts: seq<string>): (caps: seq<string>)
    ensures |caps| == |parts|
    ensures forall k :: 0 <= k < |parts| ==> caps[k] == Capitalize(parts[k])
  {
    seq(|parts|, k requires 0 <= k < |parts| => Capitalize(parts[k]))
  }

  /** `gsub(/[^a-zA-Z0-9_]/, r)`: every character outside the class becomes `r`. */
  function ReplaceNonWord(s: string, r: char): (t: string)
    ensures |t| == |s|
    ensures forall i :: 0 <= i < |s| ==> t[i] == if IsWordChar(s[i]) then s[i] else r
  {
    seq(|s|, i requires 0 <= i < |s| => if IsWordChar(s[i]) then s[i] else r)
  }

  /** Concatenation regroups freely. */
  lemma ConcatAssoc<T>(a: seq<T>, b: seq<T>, c: seq<T>)
    ensures a + (b + c) == a + b + c
  {
  }

  lemma GlueEmpty<T>(a: seq<T>, b: seq<T>)
    ensures a + [] + b == a + b
  {
  }

  /** Slicing after dropping the first element. */
  lemma SliceShift<T>(s: seq<T>, i: nat)
    requires 0 < i <= |s|
    ensures s[1..][i - 1..] == s[i..]
    ensures s[..i] == [s[0]] + s[1..][..i - 1]
  {
  }

  /** A sequence around one of its elements. */
  lemma SplitAt<T>(s: seq<T>, i: nat)
    requires i < |s|
    ensures s == s[..i] + ([s[i]] + s[i + 1..])
  {
  }

  // ----- joining -----------------------------------------------------------

  /** Array#join(sep). */
  function Join(parts: seq<string>, sep: string): string {
    if |parts| == 0 then []
    else if |parts| == 1 then parts[0]
    else parts[0] + sep + Join(parts[1..], sep)
  }

  lemma JoinCons(a: string, rest: seq<string>, sep: string)
    ensures Join([a] + rest, sep) == if rest == [] then a else a + sep + Join(rest, sep)
  {
    assert ([a] + rest)[1..] == rest;
  }

  lemma JoinSnocEmpty(parts: seq<string>)
    ensures Join(parts + [[]], []) == Join(parts, [])
    decreases |parts|
  {
    if |parts| > 1 {
      assert (parts + [[]])[1..] == parts[1..] + [[]];
      JoinSnocEmpty(parts[1..]);
    }
  }

  /** Downcasing a joined list is joining the downcased capitalized words. */
  lemma {:induction false} DowncaseJoinCapitalized(parts: seq<string>, sep: string)
    ensures DowncaseAll(Join(CapitalizeEach(parts), sep)) == DowncaseAll(Join(parts, sep))
    decreases |parts|
  {
    var caps := CapitalizeEach(parts);
    if |parts| > 1 {
      assert caps[1..] == CapitalizeEach(parts[1..]);
      DowncaseJoinCapitalized(parts[1..], sep);
      calc {
        DowncaseAll(Join(caps, sep));
        DowncaseAll(caps[0] + sep + Join(caps[1..], sep));
        { DowncaseAllAppend(caps[0] + sep, Join(caps[1..], sep));
          DowncaseAllAppend(caps[0], sep); }
        DowncaseAll(caps[0]) + DowncaseAll(sep) + DowncaseAll(Join(caps[1..], sep));
        DowncaseAll(parts[0]) + DowncaseAll(sep) + DowncaseAll(Join(parts[1..], sep));
        { DowncaseAllAppend(parts[0] + sep, Join(parts[1..], sep));
          DowncaseAllAppend(parts[0], sep); }
        DowncaseAll(Join(parts, sep));
      }
    }
  }

  // ----- splitting -----------------------------------------------------------

  /** Ruby drops the trailing empty fields of a split made without a limit. */
  function DropTrailingEmpty(fs: seq<string>): (ts: seq<string>)
    ensures ts <= fs
    ensures ts == [] || ts[|ts| - 1] != []
    ensures forall k :: |ts| <= k < |fs| ==> fs[k] == []
  {
    if fs == [] || fs[|fs| - 1] != [] then fs else DropTrailingEmpty(fs[..|fs| - 1])
  }

  lemma {:induction false} DropTrailingEmptyCons(a: string, fs: seq<string>)
    ensures DropTrailingEmpty([a] + fs) ==
      if a == [] && DropTrailingEmpty(fs) == [] then [] else [a] + DropTrailingEmpty(fs)
    decreases |fs|
  {
    var afs := [a] + fs;
    if fs == [] {
      assert afs == [a] && afs[..0] == [];
    } else if fs[|fs| - 1] != [] {
      assert afs[|afs| - 1] == fs[|fs| - 1];
    } else {
      var init := fs[..|fs| - 1];
      assert afs[|afs| - 1] == [];
      assert afs[..|afs| - 1] == [a] + init;
      DropTrailingEmptyCons(a, init);
    }
  }

  /** A nonempty first field survives the dropping of trailing empties. */
  lemma DropTrailingEmptyKeepsHead(fs: seq<string>)
    requires fs != [] && fs[0] != []
    ensures DropTrailingEmpty(fs) != []
  {
  }

  function IndexOf(s: string, c: char): (i: nat)
    ensures i <= |s|
    ensures i < |s| ==> s[i] == c
    ensures forall j :: 0 <= j < i ==> s[j] != c
  {
    if s == [] || s[0] == c then 0 else 1 + IndexOf(s[1..], c)
  }

  /** The fields between occurrences of `sep`, empty fields included. */
  function Fields(s: string, sep: char): (fs: seq<string>)
    ensures |fs| > 0
    ensures forall k :: 0 <= k < |fs| ==> sep !in fs[k]
    decreases |s|
  {
    var i := IndexOf(s, sep);
    if i == |s| then [s] else [s[..i]] + Fields(s[i + 1..], sep)
  }

  /** The first field ends at the first separator. */
  lemma FieldsCons(a: string, b: string, sep: char)
    requires sep !in a
    ensures Fields(a + [sep] + b, sep) == [a] + Fields(b, sep)
  {
    var s := a + [sep] + b;
    assert IndexOf(s, sep) == |a| by {
      forall j | 0 <= j < |a| ensures s[j] != sep { assert s[j] == a[j]; }
      assert s[|a|] == sep;
    }
    assert s[..|a|] == a && s[|a| + 1..] == b;
  }

  lemma FieldsLast(s: string, sep: char)
    requires sep !in s
    ensures Fields(s, sep) == [s]
  {
  }

  /**
   * String#split(sep) for a one-character string `sep` other than " ": no
   * field holds the separator, and no trailing field is empty.
   */
  function Split(s: string, sep: char): (parts: seq<string>)
    ensures forall k :: 0 <= k < |parts| ==> sep !in parts[k]
    ensures parts == [] || parts[|parts| - 1] != []
  {
    DropTrailingEmpty(Fields(s, sep))
  }

  function IndexOfSpace(s: string): (i: nat)
    ensures i <= |s|
    ensures i < |s| ==> IsSpace(s[i])
    ensures forall j :: 0 <= j < i ==> !IsSpace(s[j])
  {
    if s == [] || IsSpace(s[0]) then 0 else 1 + IndexOfSpace(s[1..])
  }

  /** What is left after a leading run of whitespace. */
  function SkipSpaces(s: string): (t: string)
    ensures |t| <= |s| && t == s[|s| - |t|..]
    ensures t == [] || !IsSpace(t[0])
    ensures s != [] && IsSpace(s[0]) ==> |t| < |s|
  {
    if s != [] && IsSpace(s[0]) then SkipSpaces(s[1..]) else s
  }

  /**
   * The fields between maximal runs of whitespace. A leading run gives a
   * leading empty field; no other field but the last can be empty.
   */
  function SpaceFields(s: string): (fs: seq<string>)
    ensures |fs| > 0
    ensures forall k :: 0 <= k < |fs| ==> NoSpace(fs[k])
    ensures s != [] && !IsSpace(s[0]) ==> fs[0] != []
    ensures forall k :: 0 < k < |fs| - 1 ==> fs[k] != []
    decreases |s|
  {
    var i := IndexOfSpace(s);
    if i == |s| then [s] else [s[..i]] + SpaceFields(SkipSpaces(s[i..]))
  }

  /** A single space ends the first field when a word follows it. */
  lemma SpaceFieldsCons(a: string, b: string)
    requires forall j :: 0 <= j < |a| ==> !IsSpace(a[j])
    requires b != [] && !IsSpace(b[0])
    ensures SpaceFields(a + " " + b) == [a] + SpaceFields(b)
  {
    var s := a + " " + b;
    assert IndexOfSpace(s) == |a| by {
      forall j | 0 <= j < |a| ensures !IsSpace(s[j]) { assert s[j] == a[j]; }
      assert s[|a|] == ' ';
    }
    assert s[..|a|] == a;
    assert SkipSpaces(s[|a|..]) == b by {
      assert s[|a|..][1..] == b;
    }
  }

  lemma SpaceFieldsLast(s: string)
    requires forall j :: 0 <= j < |s| ==> !IsSpace(s[j])
    ensures SpaceFields(s) == [s]
  {
  }

  /** A word without whitespace. */
  predicate NoSpace(w: string) {
    forall j :: 0 <= j < |w| ==> !IsSpace(w[j])
  }

  /**
   * String#split(/\s+/): no word holds whitespace, and only the first word
   * can be empty (unlike split(" "), a leading empty field is kept).
   */
  function SplitSpaces(s: string): (words: seq<string>)
    ensures forall k :: 0 <= k < |words| ==> NoSpace(words[k])
    ensures forall k :: 0 < k < |words| ==> words[k] != []
  {
    DropTrailingEmpty(SpaceFields(s))
  }

  // ----- reference definitions for the two splits -----------------------------

  /** `s` with every occurrence of `c` deleted. */
  function Without(s: string, c: char): (t: string)
    ensures c !in t
    ensures forall x :: x in t ==> x in s
  {
    if s == [] then [] else (if s[0] == c then [] else [s[0]]) + Without(s[1..], c)
  }

  lemma WithoutAppend(a: string, b: string, c: char)
    ensures Without(a + b, c) == Without(a, c) + Without(b, c)
  {
    if a != [] {
      var head := if a[0] == c then [] else [a[0]];
      assert (a + b)[0] == a[0];
      assert (a + b)[1..] == a[1..] + b;
      WithoutAppend(a[1..], b, c);
      ConcatAssoc(head, Without(a[1..], c), Without(b, c));
    } else {
      assert a + b == b;
    }
  }

  lemma WithoutAbsent(s: string, c: char)
    requires c !in s
    ensures Without(s, c) == s
  {
  }

  /**
   * Gluing the fields of split(sep) back together without a separator gives
   * the input with every separator deleted: split loses nothing else.
   */
  lemma {:induction false} ConcatSplit(s: string, sep: char)
    ensures Join(Split(s, sep), []) == Without(s, sep)
    decreases |s|
  {
    var i := IndexOf(s, sep);
    ConcatDropTrailingEmpty(Fields(s, sep));
    if i == |s| {
      WithoutAbsent(s, sep);
    } else {
      var rest := s[i + 1..];
      ConcatSplit(rest, sep);
      ConcatDropTrailingEmpty(Fields(rest, sep));
      JoinCons(s[..i], Fields(rest, sep), []);
      GlueEmpty(s[..i], Join(Fields(rest, sep), []));
      WithoutAtSeparator(s, i, sep);
    }
  }

  /** Deleting `sep` from `s` around its first occurrence, at `i`. */
  lemma WithoutAtSeparator(s: string, i: nat, sep: char)
    requires i < |s| && s[i] == sep && sep !in s[..i]
    ensures Without(s, sep) == s[..i] + Without(s[i + 1..], sep)
  {
    var pre, rest := s[..i], s[i + 1..];
    SplitAt(s, i);
    WithoutAppend(pre, [sep] + rest, sep);
    WithoutDropsHead(sep, rest);
    WithoutAbsent(pre, sep);
  }

  lemma WithoutDropsHead(c: char, rest: string)
    ensures Without([c] + rest, c) == Without(rest, c)
  {
    assert ([c] + rest)[1..] == rest;
  }

  lemma ConcatDropTrailingEmpty(fs: seq<string>)
    ensures Join(DropTrailingEmpty(fs), []) == Join(fs, [])
    decreases |fs|
  {
    if fs != [] && fs[|fs| - 1] == [] {
      ConcatDropTrailingEmpty(fs[..|fs| - 1]);
      assert fs == fs[..|fs| - 1] + [[]];
      JoinSnocEmpty(fs[..|fs| - 1]);
    }
  }

  /**
   * `s` with every maximal run of whitespace replaced by one space and a
   * trailing run removed.
   */
  function Squeeze(s: string): (r: string)
    ensures s != [] && !IsSpace(s[0]) ==> r != [] && r[0] == s[0]
    decreases |s|
  {
    if s == [] then []
    else if IsSpace(s[0]) then
      var t := SkipSpaces(s);
      if t == [] then [] else [' '] + Squeeze(t)
    else [s[0]] + Squeeze(s[1..])
  }

  /** Whitespace in `r` is single spaces, never two in a row and never last. */
  predicate SingleSpaced(r: string) {
    && (r == [] || !IsSpace(r[|r| - 1]))
    && (forall i :: 0 <= i < |r| - 1 && IsSpace(r[i]) ==> !IsSpace(r[i + 1]))
    && (forall i :: 0 <= i < |r| && IsSpace(r[i]) ==> r[i] == ' ')
  }

  /**
   * Text that differs from `q` only in letter case has the same spaces as
   * `q` and the same characters outside the letters.
   */
  lemma SpacingUpToCase(r: string, q: string)
    requires DowncaseAll(r) == DowncaseAll(q)
    requires forall i :: 0 <= i < |q| ==> IsWordChar(q[i]) || q[i] == ' '
    requires SingleSpaced(q)
    ensures forall i :: 0 <= i < |r| ==> IsWordChar(r[i]) || r[i] == ' '
    ensures forall i :: 0 <= i < |r| - 1 ==> !(r[i] == ' ' && r[i + 1] == ' ')
    ensures r == [] || r[|r| - 1] != ' '
  {
    assert |r| == |q|;
    forall i | 0 <= i < |r|
      ensures (r[i] == ' ') == (q[i] == ' ')
      ensures IsWordChar(r[i]) || r[i] == ' '
    {
      assert Downcase(r[i]) == Downcase(q[i]);
      DowncaseClasses(r[i]);
      DowncaseClasses(q[i]);
    }
  }

  lemma {:induction false} SqueezeShape(s: string)
    ensures SingleSpaced(Squeeze(s))
    ensures forall c :: c in Squeeze(s) && !IsSpace(c) ==> c in s
    decreases |s|
  {
    if s == [] {
    } else if IsSpace(s[0]) {
      var t := SkipSpaces(s);
      if t != [] {
        SqueezeShape(t);
        SingleSpacedCons(' ', Squeeze(t));
        SuffixChars(s, |s| - |t|);
        ConsKeepsChars(' ', Squeeze(t), t, s);
      }
    } else {
      SqueezeShape(s[1..]);
      SingleSpacedCons(s[0], Squeeze(s[1..]));
      SuffixChars(s, 1);
      ConsKeepsChars(s[0], Squeeze(s[1..]), s[1..], s);
    }
  }

  /** Putting a character in front keeps the spacing rule unless it makes a double space. */
  lemma SingleSpacedCons(c: char, q: string)
    requires SingleSpaced(q)
    requires IsSpace(c) ==> c == ' ' && q != [] && !IsSpace(q[0])
    ensures SingleSpaced([c] + q)
  {
    var r := [c] + q;
    forall i | 0 <= i < |r| - 1 && IsSpace(r[i]) ensures !IsSpace(r[i + 1]) {
      if i > 0 { assert r[i] == q[i - 1]; }
    }
    forall i | 0 <= i < |r| && IsSpace(r[i]) ensures r[i] == ' ' {
      if i > 0 { assert r[i] == q[i - 1]; }
    }
  }

  lemma SuffixChars(s: string, k: nat)
    requires k <= |s|
    ensures forall x :: x in s[k..] ==> x in s
  {
  }

  lemma ConsKeepsChars(c: char, q: string, t: string, s: string)
    requires c in s || IsSpace(c)
    requires forall x :: x in q && !IsSpace(x) ==> x in t
    requires forall x :: x in t ==> x in s
    ensures forall x :: x in [c] + q && !IsSpace(x) ==> x in s
  {
  }

  lemma {:induction false} SqueezeWord(s: string, i: nat)
    requires i <= |s|
    requires forall j :: 0 <= j < i ==> !IsSpace(s[j])
    ensures Squeeze(s) == s[..i] + Squeeze(s[i..])
    decreases i
  {
    if i > 0 {
      var t := s[1..];
      assert Squeeze(s) == [s[0]] + Squeeze(t) by { assert !IsSpace(s[0]); }
      forall j | 0 <= j < i - 1 ensures !IsSpace(t[j]) { assert t[j] == s[j + 1]; }
      SqueezeWord(t, i - 1);
      SliceShift(s, i);
      ConcatAssoc([s[0]], t[..i - 1], Squeeze(s[i..]));
    } else {
      assert s[i..] == s;
    }
  }

  /**
   * Joining the fields of split(/\s+/) with single spaces is `Squeeze`:
   * runs collapse to one space, a trailing run disappears, a leading run
   * survives as one leading space.
   */
  lemma {:induction false} JoinSplitSpaces(s: string)
    ensures Join(SplitSpaces(s), " ") == Squeeze(s)
    decreases |s|
  {
    var i := IndexOfSpace(s);
    if i == |s| {
      SqueezeWord(s, i);
      assert s[..i] == s && s[i..] == [];
    } else {
      var w := s[..i];
      var t := SkipSpaces(s[i..]);
      SplitSpacesAt(s, i);
      SqueezeAt(s, i);
      if t != [] {
        JoinSplitSpaces(t);
        JoinCons(w, SplitSpaces(t), " ");
      }
    }
  }

  /** Squeezing at the first whitespace run: the word before it, then one space and the rest. */
  lemma SqueezeAt(s: string, i: nat)
    requires i == IndexOfSpace(s) < |s|
    ensures var w, t := s[..i], SkipSpaces(s[i..]);
      Squeeze(s) == if t == [] then w else w + [' '] + Squeeze(t)
  {
    var w, u := s[..i], s[i..];
    var t := SkipSpaces(u);
    assert Squeeze(s) == w + Squeeze(u) by { SqueezeWord(s, i); }
    assert Squeeze(u) == if t == [] then [] else [' '] + Squeeze(t) by {
      assert u != [] && IsSpace(u[0]);
    }
    if t == [] {
      assert w + [] == w;
    } else {
      ConcatAssoc(w, [' '], Squeeze(t));
    }
  }

  /** Splitting at the first whitespace run: the word before it, then the split of the rest. */
  lemma SplitSpacesAt(s: string, i: nat)
    requires i == IndexOfSpace(s) < |s|
    ensures var w, t := s[..i], SkipSpaces(s[i..]);
      SplitSpaces(s) ==
        if t == [] then (if w == [] then [] else [w])
        else [w] + SplitSpaces(t)
  {
    var w, t := s[..i], SkipSpaces(s[i..]);
    var rest := SpaceFields(t);
    assert SpaceFields(s) == [w] + rest;
    DropTrailingEmptyCons(w, rest);
    if t == [] {
      assert rest == [[]];
    } else {
      DropTrailingEmptyKeepsHead(rest);
    }
  }

  // ----- strip, include? ------------------------------------------------------

  function TrimStart(s: string): (t: string)
    ensures |t| <= |s| && t == s[|s| - |t|..]
    ensures t == [] || !IsStripChar(t[0])
    ensures forall k :: 0 <= k < |s| - |t| ==> IsStripChar(s[k])
  {
    if s != [] && IsStripChar(s[0]) then TrimStart(s[1..]) else s
  }

  function TrimEnd(s: string): (t: string)
    ensures |t| <= |s| && t == s[..|t|]
    ensures t == [] || !IsStripChar(t[|t| - 1])
    ensures forall k :: |t| <= k < |s| ==> IsStripChar(s[k])
  {
    if s != [] && IsStripChar(s[|s| - 1]) then TrimEnd(s[..|s| - 1]) else s
  }

  /**
   * String#strip: the input with the whitespace and NUL at its two ends cut
   * off; everything between them is kept, and none is left at either end.
   */
  function Strip(s: string): (t: string)
    ensures |t| <= |s|
    ensures t == [] || (!IsStripChar(t[0]) && !IsStripChar(t[|t| - 1]))
    ensures exists i :: StrippedAt(s, t, i)
  {
    var u := TrimStart(s);
    var t := TrimEnd(u);
    StripParts(s, u, t);
    t
  }

  /** Cutting a leading run and then a trailing run leaves a piece stripped at both ends. */
  lemma StripParts(s: string, u: string, t: string)
    requires |u| <= |s| && u == s[|s| - |u|..]
    requires forall k :: 0 <= k < |s| - |u| ==> IsStripChar(s[k])
    requires |t| <= |u| && t == u[..|t|]
    requires forall k :: |t| <= k < |u| ==> IsStripChar(u[k])
    ensures StrippedAt(s, t, |s| - |u|)
    ensures t != [] ==> t[0] == u[0]
  {
    var i := |s| - |u|;
    assert t == s[i..i + |t|];
    forall k | i + |t| <= k < |s| ensures IsStripChar(s[k]) {
      assert s[k] == u[k - i];
    }
  }

  /**
   * `t` is the piece of `s` that starts at `i`, and everything of `s`
   * before and after that piece is whitespace or NUL.
   */
  predicate StrippedAt(s: string, t: string, i: int) {
    0 <= i <= |s| - |t| && t == s[i..i + |t|]
    && (forall k :: 0 <= k < i ==> IsStripChar(s[k]))
    && (forall k :: i + |t| <= k < |s| ==> IsStripChar(s[k]))
  }

  /** `s` begins with `p`. */
  predicate StartsWith(s: string, p: string) {
    |p| <= |s| && s[..|p|] == p
  }

  /** String#include?: `needle` occurs somewhere in `hay`. */
  predicate Contains(hay: string, needle: string) {
    exists i :: 0 <= i <= |hay| - |needle| && StartsWith(hay[i..], needle)
  }

  /** Strip only cuts at the ends, so its result is a piece of its input. */
  lemma StripIsInfix(s: string)
    ensures |Strip(s)| <= |s|
    ensures Contains(s, Strip(s))
  {
    var t := TrimStart(s);
    var k := |s| - |t|;
    assert StartsWith(s[k..], Strip(s));
  }

  /** Every text includes the empty string. */
  lemma ContainsEmpty(s: string)
    ensures Contains(s, [])
  {
    assert StartsWith(s[0..], []);
  }

  lemma ContainsAppend(a: string, b: string, n: string)
    requires Contains(b, n)
    ensures Contains(a + b, n)
  {
    var i :| 0 <= i <= |b| - |n| && StartsWith(b[i..], n);
    assert (a + b)[|a| + i..] == b[i..];
  }

  lemma ContainsTail(s: string, n: string)
    requires s != []
    ensures Contains(s[1..], n) ==> Contains(s, n)
  {
    if Contains(s[1..], n) {
      ContainsAppend([s[0]], s[1..], n);
      assert [s[0]] + s[1..] == s;
    }
  }

  lemma ContainsTrans(a: string, b: string, c: string)
    requires Contains(a, b) && Contains(b, c)
    ensures Contains(a, c)
  {
    var i :| 0 <= i <= |a| - |b| && StartsWith(a[i..], b);
    var j :| 0 <= j <= |b| - |c| && StartsWith(b[j..], c);
    forall m | 0 <= m < |c| ensures a[i + j + m] == c[m] {
      assert b[j..][..|c|][m] == c[m];
      assert a[i..][..|b|][j + m] == b[j + m];
    }
    assert StartsWith(a[i + j..], c);
  }

  // ----- literal gsub ---------------------------------------------------------

  /**
   * String#gsub(pat, rep) with a String pattern: scan left to right and
   * replace every non-overlapping occurrence. The replacement is taken
   * literally (the template's replacements contain no backslash).
   */
  function ReplaceAll(s: string, pat: string, rep: string): string
    decreases |s|
  {
    if pat == [] then
      if s == [] then rep else rep + [s[0]] + ReplaceAll(s[1..], pat, rep)
    else if s == [] then []
    else if StartsWith(s, pat) then rep + ReplaceAll(s[|pat|..], pat, rep)
    else [s[0]] + ReplaceAll(s[1..], pat, rep)
  }

  /** Without an occurrence, gsub changes nothing. */
  lemma {:induction false} ReplaceAllAbsent(s: string, pat: string, rep: string)
    requires pat != [] && !Contains(s, pat)
    ensures ReplaceAll(s, pat, rep) == s
    decreases |s|
  {
    if s != [] {
      assert !StartsWith(s[0..], pat);
      ContainsTail(s, pat);
      ReplaceAllAbsent(s[1..], pat, rep);
    }
  }

  /** With an occurrence, the result of gsub holds the replacement. */
  lemma {:induction false} ReplaceAllPresent(s: string, pat: string, rep: string)
    requires pat != [] && Contains(s, pat)
    ensures Contains(ReplaceAll(s, pat, rep), rep)
    decreases |s|
  {
    if StartsWith(s, pat) {
      assert StartsWith(ReplaceAll(s, pat, rep)[0..], rep);
    } else {
      var i :| 0 <= i <= |s| - |pat| && StartsWith(s[i..], pat);
      assert i != 0;
      assert s[1..][i - 1..] == s[i..];
      ReplaceAllPresent(s[1..], pat, rep);
      ContainsAppend([s[0]], ReplaceAll(s[1..], pat, rep), rep);
    }
  }

  /**
   * A replacement that extends its own pattern never shrinks the text, and
   * grows it by at least the extension once the pattern occurs.
   */
  lemma {:induction false} ReplaceAllGrows(s: string, pat: string, tail: string)
    requires pat != []
    ensures |ReplaceAll(s, pat, pat + tail)| >= |s|
    ensures Contains(s, pat) ==> |ReplaceAll(s, pat, pat + tail)| >= |s| + |tail|
    decreases |s|
  {
    if s == [] {
    } else if StartsWith(s, pat) {
      ReplaceAllGrows(s[|pat|..], pat, tail);
    } else {
      ReplaceAllGrows(s[1..], pat, tail);
      ContainsShift(s, pat);
    }
  }

  /** An occurrence that is not at the start is an occurrence in the tail. */
  lemma ContainsShift(s: string, pat: string)
    requires s != [] && !StartsWith(s, pat)
    ensures Contains(s, pat) ==> Contains(s[1..], pat)
  {
    if Contains(s, pat) {
      var i :| 0 <= i <= |s| - |pat| && StartsWith(s[i..], pat);
      assert i != 0 by { assert s[0..] == s; }
      assert s[1..][i - 1..] == s[i..];
    }
  }

  /**
   * A replacement that begins with its own pattern is not idempotent: once
   * the pattern has matched, a second gsub matches again and inserts the
   * tail once more, so the content keeps growing.
   */
  lemma ReplaceAllNotIdempotent(s: string, pat: string, tail: string)
    requires pat != [] && tail != [] && Contains(s, pat)
    ensures var once := ReplaceAll(s, pat, pat + tail);
      && |once| >= |s| + |tail|
      && |ReplaceAll(once, pat, pat + tail)| >= |once| + |tail|
  {
    var rep := pat + tail;
    var once := ReplaceAll(s, pat, rep);
    ReplaceAllGrows(s, pat, tail);
    ReplaceAllPresent(s, pat, rep);
    assert Contains(rep, pat) by { assert StartsWith(rep[0..], pat); }
    ContainsTrans(once, rep, pat);
    ReplaceAllGrows(once, pat, tail);
  }

  // ----- where gsub matches first ---------------------------------------------

  /** A match of `pat` starts at position `j` of `s`. */
  predicate MatchAt(s: string, pat: string, j: nat) {
    j <= |s| && StartsWith(s[j..], pat)
  }

  /** `i` is the first match of `pat` in `s`: the pattern starts there and at no earlier position. */
  predicate FirstAt(s: string, pat: string, i: nat) {
    MatchAt(s, pat, i) && forall j: nat :: j < i ==> !MatchAt(s, pat, j)
  }

  /** A text that holds the pattern has exactly one first match. */
  lemma {:induction false} FirstAtExists(s: string, pat: string)
    requires Contains(s, pat)
    ensures exists i: nat :: FirstAt(s, pat, i)
    ensures forall i: nat, k: nat :: FirstAt(s, pat, i) && FirstAt(s, pat, k) ==> i == k
    decreases |s|
  {
    if StartsWith(s, pat) {
      assert s[0..] == s;
      assert FirstAt(s, pat, 0);
    } else {
      ContainsShift(s, pat);
      FirstAtExists(s[1..], pat);
      var i: nat :| FirstAt(s[1..], pat, i);
      assert s[1..][i..] == s[i + 1..];
      forall j: nat | j < i + 1 ensures !MatchAt(s, pat, j) {
        if j == 0 {
          assert s[0..] == s;
        } else {
          assert s[1..][j - 1..] == s[j..];
          assert !MatchAt(s[1..], pat, j - 1);
        }
      }
      assert FirstAt(s, pat, i + 1);
    }
  }

  /**
   * gsub replaces the first match and then goes on after it: the text before
   * the first match is kept, the match becomes the replacement, and the rest
   * of the text is scanned the same way, so every later occurrence is
   * replaced too.
   */
  lemma ReplaceAllAtFirst(s: string, pat: string, rep: string, i: nat)
    requires pat != [] && FirstAt(s, pat, i)
    ensures ReplaceAll(s, pat, rep) == s[..i] + rep + ReplaceAll(s[i + |pat|..], pat, rep)
  {
    var a, y := s[..i], s[i..];
    SplitAtFirst(s, pat, i);
    PrefixThenMatch(a, y, pat, rep);
  }

  /** Cut at the first match: no match starts before it, and one starts at it. */
  lemma SplitAtFirst(s: string, pat: string, i: nat)
    requires FirstAt(s, pat, i)
    ensures s[..i] + s[i..] == s
    ensures NoMatchIn(s[..i], s[i..], pat) && StartsWith(s[i..], pat)
    ensures s[i..][|pat|..] == s[i + |pat|..]
  {
    assert s[..i] + s[i..] == s;
  }

  /** gsub over a text without a match, then one that starts with the pattern. */
  lemma PrefixThenMatch(a: string, y: string, pat: string, rep: string)
    requires pat != [] && NoMatchIn(a, y, pat) && StartsWith(y, pat)
    ensures ReplaceAll(a + y, pat, rep) == a + rep + ReplaceAll(y[|pat|..], pat, rep)
  {
    assert ReplaceAll(y, pat, rep) == rep + ReplaceAll(y[|pat|..], pat, rep) by {
      ReplaceAllAtStart(y, pat, rep);
    }
    assert ReplaceAll(a + y, pat, rep) == a + ReplaceAll(y, pat, rep) by {
      ReplaceAllKeepsPrefix(a, y, pat, rep);
    }
    Chain(a, rep, ReplaceAll(y[|pat|..], pat, rep), ReplaceAll(y, pat, rep), ReplaceAll(a + y, pat, rep));
  }

  /** Sequence algebra kept apart from gsub. */
  lemma Chain<T>(a: seq<T>, r: seq<T>, x: seq<T>, y: seq<T>, z: seq<T>)
    requires z == a + y && y == r + x
    ensures z == a + r + x
  {
  }

  /** A text that starts with the pattern: gsub replaces it and scans on after it. */
  lemma ReplaceAllAtStart(s: string, pat: string, rep: string)
    requires pat != [] && StartsWith(s, pat)
    ensures ReplaceAll(s, pat, rep) == rep + ReplaceAll(s[|pat|..], pat, rep)
  {
  }

  /** No match of `pat` starts inside `a` when `y` follows it. */
  predicate NoMatchIn(a: string, y: string, pat: string) {
    forall j: nat :: j < |a| ==> !MatchAt(a + y, pat, j)
  }

  /** gsub passes over a text in which no match starts, and goes on after it. */
  lemma {:induction false} ReplaceAllKeepsPrefix(a: string, y: string, pat: string, rep: string)
    requires pat != [] && NoMatchIn(a, y, pat)
    ensures ReplaceAll(a + y, pat, rep) == a + ReplaceAll(y, pat, rep)
    decreases |a|
  {
    if a == [] {
      assert a + y == y;
    } else {
      NoMatchHead(a, y, pat);
      ReplaceAllKeepsPrefix(a[1..], y, pat, rep);
      ConcatAssoc([a[0]], a[1..], ReplaceAll(y, pat, rep));
    }
  }

  lemma NoMatchHead(a: string, y: string, pat: string)
    requires pat != [] && NoMatchIn(a, y, pat) && a != []
    ensures !StartsWith(a + y, pat) && NoMatchIn(a[1..], y, pat)
    ensures (a + y)[1..] == a[1..] + y && [a[0]] + a[1..] == a && (a + y)[0] == a[0]
  {
    assert (a + y)[0..] == a + y;
    assert !MatchAt(a + y, pat, 0);
    forall j: nat | j < |a| - 1 ensures !MatchAt(a[1..] + y, pat, j) {
      assert (a[1..] + y)[j..] == (a + y)[j + 1..];
      assert !MatchAt(a + y, pat, j + 1);
    }
  }

  /** Some character of `u` differs from the pattern's character at the same place. */
  predicate Mismatch(u: string, pat: string) {
    exists k :: 0 <= k < |u| && k < |pat| && u[k] != pat[k]
  }

  /**
   * No match of `pat` can start inside `t`, whatever text follows it: from
   * every position of `t`, `t` disagrees with the pattern before it ends.
   */
  predicate Inert(t: string, pat: string) {
    forall j :: 0 <= j < |t| ==> Mismatch(t[j..], pat)
  }

  /** gsub passes over an inert text unchanged and goes on after it. */
  lemma ReplaceAllSkipsInert(t: string, x: string, pat: string, rep: string)
    requires pat != [] && Inert(t, pat)
    ensures ReplaceAll(t + x, pat, rep) == t + ReplaceAll(x, pat, rep)
  {
    forall j: nat | j < |t| ensures !MatchAt(t + x, pat, j) {
      var k :| 0 <= k < |t[j..]| && k < |pat| && t[j..][k] != pat[k];
      if |pat| <= |(t + x)[j..]| {
        assert (t + x)[j..][..|pat|][k] == t[j..][k];
      }
    }
    ReplaceAllKeepsPrefix(t, x, pat, rep);
  }

  lemma InertConcat(a: string, b: string, pat: string)
    requires Inert(a, pat) && Inert(b, pat)
    ensures Inert(a + b, pat)
  {
    forall j | 0 <= j < |a + b| ensures Mismatch((a + b)[j..], pat) {
      if j < |a| {
        var k :| 0 <= k < |a[j..]| && k < |pat| && a[j..][k] != pat[k];
        assert (a + b)[j..][k] == a[j..][k];
      } else {
        assert (a + b)[j..] == b[j - |a|..];
      }
    }
  }

  /** A text without the pattern's first character is inert. */
  lemma InertByFirst(t: string, pat: string)
    requires pat != [] && pat[0] !in t
    ensures Inert(t, pat)
  {
    forall j | 0 <= j < |t| ensures Mismatch(t[j..], pat) {
      assert t[j..][0] == t[j];
    }
  }

  /**
   * A text whose one occurrence of the pattern's first character is its
   * first character, where it already disagrees with the pattern, is inert.
   */
  lemma InertLead(c: string, rest: string, pat: string)
    requires |c| == 1 && pat != [] && Mismatch(c + rest, pat) && pat[0] !in rest
    ensures Inert(c + rest, pat)
  {
    InertByFirst(rest, pat);
    forall j | 0 <= j < |c + rest| ensures Mismatch((c + rest)[j..], pat) {
      if j == 0 {
        assert (c + rest)[0..] == c + rest;
      } else {
        assert (c + rest)[j..] == rest[j - 1..];
      }
    }
  }

  /**
   * gsub run twice with a replacement that is the pattern followed by an
   * inert tail: the second run matches again at the first match and leaves
   * the pattern followed by the tail twice there.
   */
  lemma ReplaceAllTwice(s: string, pat: string, tail: string, i: nat)
    requires pat != [] && FirstAt(s, pat, i) && Inert(tail, pat)
    ensures var rest := ReplaceAll(s[i + |pat|..], pat, pat + tail);
      && ReplaceAll(s, pat, pat + tail) == s[..i] + pat + tail + rest
      && ReplaceAll(ReplaceAll(s, pat, pat + tail), pat, pat + tail)
           == s[..i] + pat + tail + tail + ReplaceAll(rest, pat, pat + tail)
  {
    var rep := pat + tail;
    var rest := ReplaceAll(s[i + |pat|..], pat, rep);
    var once := ReplaceAll(s, pat, rep);
    assert once == s[..i] + rep + rest by {
      ReplaceAllAtFirst(s, pat, rep, i);
    }
    assert once[..i] == s[..i] && once[i + |pat|..] == tail + rest && once == s[..i] + pat + tail + rest by {
      SliceAround(s[..i], pat, tail, rest);
    }
    assert FirstAt(once, pat, i) by {
      assert StartsWith(rep, pat) by { assert rep[..|pat|] == pat; }
      MatchKept(s, once, pat, rep, rest, i);
    }
    var twice := ReplaceAll(once, pat, rep);
    assert twice == once[..i] + rep + ReplaceAll(once[i + |pat|..], pat, rep) by {
      ReplaceAllAtFirst(once, pat, rep, i);
    }
    var x := ReplaceAll(rest, pat, rep);
    assert ReplaceAll(tail + rest, pat, rep) == tail + x by {
      ReplaceAllSkipsInert(tail, rest, pat, rep);
    }
    TwiceRegroup(s[..i], pat, tail, x, once[..i], ReplaceAll(once[i + |pat|..], pat, rep), twice);
  }

  /** Sequence algebra kept apart from gsub. */
  lemma TwiceRegroup<T>(a: seq<T>, p: seq<T>, t: seq<T>, x: seq<T>, oa: seq<T>, y: seq<T>, w: seq<T>)
    requires oa == a && y == t + x && w == oa + (p + t) + y
    ensures w == a + p + t + t + x
  {
  }

  /** The pieces of a + (p + t) + r, and its regroupings. */
  lemma SliceAround<T>(a: seq<T>, p: seq<T>, t: seq<T>, r: seq<T>)
    ensures var o := a + (p + t) + r;
      && o[..|a|] == a && o[|a| + |p|..] == t + r
      && o == a + p + t + r
  {
  }

  /**
   * Replacing the first match by a text that begins with the pattern keeps
   * that match the first one.
   */
  lemma MatchKept(s: string, o: string, pat: string, rep: string, rest: string, i: nat)
    requires FirstAt(s, pat, i) && StartsWith(rep, pat) && o == s[..i] + rep + rest
    ensures FirstAt(o, pat, i)
  {
    assert o[..i + |pat|] == s[..i + |pat|] by {
      assert s[..i + |pat|] == s[..i] + pat;
      assert o[..i + |pat|] == s[..i] + rep[..|pat|];
    }
    assert o[i..][..|pat|] == pat;
    forall j: nat | j < i ensures !MatchAt(o, pat, j) {
      assert o[j..][..|pat|] == o[..i + |pat|][j..j + |pat|];
      assert s[j..][..|pat|] == s[..i + |pat|][j..j + |pat|];
      assert !MatchAt(s, pat, j);
    }
  }

  lemma MismatchAt(u: string, pat: string, k: nat)
    requires k < |u| && k < |pat| && u[k] != pat[k]
    ensures Mismatch(u, pat)
  {
  }

  /** Where a + p + t + t + x holds p + t + t, and what comes before it. */
  lemma TwiceAt<T>(a: seq<T>, p: seq<T>, t: seq<T>, x: seq<T>)
    ensures var w := a + p + t + t + x;
      && |w| >= |a| + |p + t + t|
      && w[..|a|] == a
      && w[|a|..][..|p + t + t|] == p + t + t
  {
    var w := a + p + t + t + x;
    assert w == a + (p + t + t) + x;
  }
}
