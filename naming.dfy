/**
 * The two names the template derives from the project directory's base name
 * (File.basename(Dir.pwd), a parameter here): the constant-style name
 * APP_CONST and the display title APP_TITLE interpolated into the README
 * and the first commit message.
 */
module Naming {
  import opened RubyText

  /** The underscore-separated parts of app_const_name. */
  function ConstParts(base: string): seq<string> {
    Split(ReplaceNonWord(base, '_'), '_')
  }

  /** app_const_name: `gsub(/[^a-zA-Z0-9_]/, "_").split("_").map(&:capitalize).join`. */
  function AppConstName(base: string): string {
    Join(CapitalizeEach(ConstParts(base)), [])
  }

  /** The whitespace-separated words of app_display_name. */
  function DisplayWords(base: string): seq<string> {
    SplitSpaces(ReplaceNonWord(base, ' '))
  }

  /** app_display_name: `gsub(/[^a-zA-Z0-9_]/, " ").split(/\s+/).map(&:capitalize).join(" ")`. */
  function AppDisplayName(base: string): string {
    Join(CapitalizeEach(DisplayWords(base)), " ")
  }

  /** The ASCII letters and digits of `s`, in order. */
  function AlnumOnly(s: string): (t: string)
    ensures forall i :: 0 <= i < |t| ==> IsAlnum(t[i])
  {
    if s == [] then [] else (if IsAlnum(s[0]) then [s[0]] else []) + AlnumOnly(s[1..])
  }

  lemma {:induction false} UnderscoredAlnum(s: string)
    ensures Without(ReplaceNonWord(s, '_'), '_') == AlnumOnly(s)
    decreases |s|
  {
    if s != [] {
      var u := ReplaceNonWord(s, '_');
      UnderscoredAlnum(s[1..]);
      assert u[1..] == ReplaceNonWord(s[1..], '_');
      assert u[0] == '_' <==> !IsAlnum(s[0]);
    }
  }

  /**
   * Apart from letter case, the constant name is exactly the ASCII letters
   * and digits of the directory name, in order: every other character,
   * underscores included, disappears.
   */
  lemma ConstNameKeepsAlnum(base: string)
    ensures DowncaseAll(AppConstName(base)) == DowncaseAll(AlnumOnly(base))
  {
    DowncaseJoinCapitalized(ConstParts(base), []);
    ConcatSplit(ReplaceNonWord(base, '_'), '_');
    UnderscoredAlnum(base);
  }

  /** The constant name consists of ASCII letters and digits only; no `_` is left. */
  lemma ConstNameIsAlnum(base: string)
    ensures forall i :: 0 <= i < |AppConstName(base)| ==> IsAlnum(AppConstName(base)[i])
  {
    var r := AppConstName(base);
    var a := AlnumOnly(base);
    ConstNameKeepsAlnum(base);
    forall i | 0 <= i < |r| ensures IsAlnum(r[i]) {
      assert Downcase(r[i]) == Downcase(a[i]);
      DowncaseClasses(r[i]);
      DowncaseClasses(a[i]);
    }
  }

  /**
   * Apart from letter case, the title is the directory name with every
   * character outside [a-zA-Z0-9_] turned into a space, runs of spaces
   * collapsed to one and a trailing space removed.
   */
  lemma DisplayNameSqueezes(base: string)
    ensures DowncaseAll(AppDisplayName(base)) == DowncaseAll(Squeeze(ReplaceNonWord(base, ' ')))
  {
    DowncaseJoinCapitalized(DisplayWords(base), " ");
    JoinSplitSpaces(ReplaceNonWord(base, ' '));
  }

  /**
   * The title holds only [A-Za-z0-9_ ] (underscores survive), never two
   * spaces in a row and never a trailing space.
   */
  lemma DisplayNameShape(base: string)
    ensures var r := AppDisplayName(base);
      && (forall i :: 0 <= i < |r| ==> IsWordChar(r[i]) || r[i] == ' ')
      && (forall i :: 0 <= i < |r| - 1 ==> !(r[i] == ' ' && r[i + 1] == ' '))
      && (r == [] || r[|r| - 1] != ' ')
  {
    var s := ReplaceNonWord(base, ' ');
    var q := Squeeze(s);
    DisplayNameSqueezes(base);
    SqueezeShape(s);
    SqueezedChars(s, q);
    SpacingUpToCase(AppDisplayName(base), q);
  }

  /** Squeezing text made of word characters and spaces leaves only those. */
  lemma SqueezedChars(s: string, q: string)
    requires forall i :: 0 <= i < |s| ==> IsWordChar(s[i]) || s[i] == ' '
    requires SingleSpaced(q)
    requires forall c :: c in q && !IsSpace(c) ==> c in s
    ensures forall i :: 0 <= i < |q| ==> IsWordChar(q[i]) || q[i] == ' '
  {
    forall i | 0 <= i < |q| ensures IsWordChar(q[i]) || q[i] == ' ' {
      if !IsSpace(q[i]) {
        assert q[i] in q;
      }
    }
  }
}

/**
 * The names derived for a few directory names, worked through one step per
 * lemma: replacing characters, splitting, capitalizing, joining.
 */
module NamingExamples {
  import opened RubyText
  import opened Naming

  lemma CapitalizeMy() ensures Capitalize("my") == "My" {}
  lemma CapitalizeCool() ensures Capitalize("cool") == "Cool" {}
  lemma CapitalizeApp() ensures Capitalize("app") == "App" {}
  lemma CapitalizeWhole() ensures Capitalize("my_cool_app") == "My_cool_app" {
    assert "my_cool_app" == ['m'] + "y_cool_app";
    assert "My_cool_app" == ['M'] + "y_cool_app";
    LowerTail();
    CapitalizeLowerWord('m', "y_cool_app");
  }

  lemma LowerTail() ensures forall j :: 0 <= j < |"y_cool_app"| ==> !IsUpper("y_cool_app"[j]) {}

  /** A word in lower case already: capitalize upcases its first letter only. */
  lemma CapitalizeLowerWord(c: char, rest: string)
    requires forall j :: 0 <= j < |rest| ==> !IsUpper(rest[j])
    ensures Capitalize([c] + rest) == [Upcase(c)] + rest
  {
    assert ([c] + rest)[1..] == rest;
    assert DowncaseAll(rest) == rest;
  }

  lemma CapitalizeThree()
    ensures CapitalizeEach(["my", "cool", "app"]) == ["My", "Cool", "App"]
  {
    CapitalizeMy();
    CapitalizeCool();
    CapitalizeApp();
  }

  /** Sequence algebra kept apart from the string functions, where it is cheap. */
  lemma ThreeItems<T>(x: seq<T>, y: seq<T>, a: T, b: T, c: T)
    requires x == [a] + y && y == [b, c]
    ensures x == [a, b, c]
  {
  }

  /** A word: nonempty and free of whitespace. */
  predicate Word(a: string) {
    a != [] && forall j :: 0 <= j < |a| ==> !IsSpace(a[j])
  }

  lemma FieldsThree(a: string, b: string, c: string, sep: char)
    requires sep !in a && sep !in b && sep !in c
    ensures Fields(a + [sep] + (b + [sep] + c), sep) == [a, b, c]
  {
    FieldsCons(b, c, sep);
    FieldsLast(c, sep);
    FieldsCons(a, b + [sep] + c, sep);
    ThreeItems(Fields(a + [sep] + (b + [sep] + c), sep), Fields(b + [sep] + c, sep), a, b, c);
  }

  lemma SplitUnderscores()
    ensures Split("my_cool_app", '_') == ["my", "cool", "app"]
  {
    assert "my_cool_app" == "my" + ['_'] + ("cool" + ['_'] + "app");
    FieldsThree("my", "cool", "app", '_');
  }

  lemma UnderscoresKept() ensures ReplaceNonWord("my_cool_app", '_') == "my_cool_app" {}
  lemma DashesToUnderscores() ensures ReplaceNonWord("my-cool-app", '_') == "my_cool_app" {}
  lemma JoinConst() ensures Join(["My", "Cool", "App"], []) == "MyCoolApp" {}

  /** "my_cool_app" becomes MyCoolApp. */
  lemma ConstNameUnderscored()
    ensures AppConstName("my_cool_app") == "MyCoolApp"
  {
    UnderscoresKept();
    SplitUnderscores();
    CapitalizeThree();
    JoinConst();
  }

  /** "my-cool-app" becomes MyCoolApp as well: a dash separates parts like `_`. */
  lemma ConstNameDashed()
    ensures AppConstName("my-cool-app") == "MyCoolApp"
  {
    DashesToUnderscores();
    SplitUnderscores();
    CapitalizeThree();
    JoinConst();
  }

  lemma SpaceFieldsTwo(b: string, c: string)
    requires Word(b) && Word(c)
    ensures SpaceFields(b + " " + c) == [b, c]
  {
    SpaceFieldsCons(b, c);
    SpaceFieldsLast(c);
  }

  lemma SpaceFieldsThree(a: string, b: string, c: string)
    requires Word(a) && Word(b) && Word(c)
    ensures SpaceFields(a + " " + (b + " " + c)) == [a, b, c]
  {
    var bc := b + " " + c;
    SpaceFieldsTwo(b, c);
    assert bc[0] == b[0];
    SpaceFieldsCons(a, bc);
    ThreeItems(SpaceFields(a + " " + bc), SpaceFields(bc), a, b, c);
  }

  lemma SpaceFieldsLeading(b: string)
    requires Word(b)
    ensures SpaceFields(" " + b) == ["", b]
  {
    SpaceFieldsCons([], b);
    assert [] + " " + b == " " + b;
    SpaceFieldsLast(b);
  }

  lemma ThreeWords()
    ensures Word("my") && Word("cool") && Word("app")
    ensures "my cool app" == "my" + " " + ("cool" + " " + "app")
  {
  }

  lemma SpaceFieldsMyCoolApp()
    ensures SpaceFields("my cool app") == ["my", "cool", "app"]
  {
    ThreeWords();
    SpaceFieldsThree("my", "cool", "app");
  }

  lemma SplitSpacedWords()
    ensures SplitSpaces("my cool app") == ["my", "cool", "app"]
  {
    SpaceFieldsMyCoolApp();
  }

  lemma DashesToSpaces() ensures ReplaceNonWord("my-cool-app", ' ') == "my cool app" {}
  lemma JoinTitle() ensures Join(["My", "Cool", "App"], " ") == "My Cool App" {}

  /** "my-cool-app" becomes the title "My Cool App". */
  lemma DisplayNameDashed()
    ensures AppDisplayName("my-cool-app") == "My Cool App"
  {
    DashesToSpaces();
    SplitSpacedWords();
    CapitalizeThree();
    JoinTitle();
  }

  lemma UnderscoresNotSpaces() ensures ReplaceNonWord("my_cool_app", ' ') == "my_cool_app" {}

  lemma SplitOneWord()
    ensures SplitSpaces("my_cool_app") == ["my_cool_app"]
  {
    assert SpaceFields("my_cool_app") == ["my_cool_app"] by {
      NoSpaceInName();
      SpaceFieldsLast("my_cool_app");
    }
  }

  lemma NoSpaceInName()
    ensures forall j :: 0 <= j < |"my_cool_app"| ==> !IsSpace("my_cool_app"[j])
  {
  }

  /** `_` is a word character, so "my_cool_app" stays one word: the title is "My_cool_app". */
  lemma DisplayNameUnderscored()
    ensures AppDisplayName("my_cool_app") == "My_cool_app"
  {
    UnderscoresNotSpaces();
    SplitOneWord();
    CapitalizeWhole();
  }

  lemma LeadingDashToSpace() ensures ReplaceNonWord("-app", ' ') == " app" {}

  lemma SplitLeadingSpace()
    ensures SplitSpaces(" app") == ["", "app"]
  {
    assert " app" == " " + "app";
    SpaceFieldsLeading("app");
  }

  lemma CapitalizeLeadingEmpty()
    ensures CapitalizeEach(["", "app"]) == ["", "App"]
  {
    CapitalizeApp();
    assert Capitalize("") == "";
  }

  /** split(/\s+/) keeps a leading empty field, so "-app" gives the title " App". */
  lemma DisplayNameLeadingSpace()
    ensures AppDisplayName("-app") == " App"
  {
    DisplayWordsLeading();
    CapitalizeLeadingEmpty();
    JoinLeadingEmpty();
  }

  lemma DisplayWordsLeading()
    ensures DisplayWords("-app") == ["", "app"]
  {
    LeadingDashToSpace();
    SplitLeadingSpace();
  }

  lemma JoinLeadingEmpty() ensures Join(["", "App"], " ") == " App" {}

  lemma AppKept() ensures ReplaceNonWord("app", '_') == "app" && ReplaceNonWord("app", ' ') == "app" {}

  /** A plain name gives the same constant and title: "app" becomes App twice. */
  lemma PlainName()
    ensures AppConstName("app") == "App"
    ensures AppDisplayName("app") == "App"
  {
    AppKept();
    FieldsLast("app", '_');
    SpaceFieldsLast("app");
    CapitalizeApp();
  }
}
