/**
 * The project directory as a map from path to file content, and the file
 * actions the template applies to it: `append_file` and the template's own
 * `append_once` guard, `gsub_file` with a literal pattern and with the
 * whole-file pattern /\A[\s\S]*\z/, `file` (create) and `remove_file`.
 *
 * Reading a file that does not exist raises in Ruby; outside `safe_run`
 * nothing rescues it, so an action on a missing file gives `Aborted`.
 */
module ProjectFiles {
  import opened RubyText

  type Path = string
  type FileMap = map<Path, string>

  /** Why a run stopped: an exception nobody rescued. */
  datatype Failure =
    | MissingFile(path: Path)
    | Raised(action: string, message: string)

  /** The files after an action, or the exception the action raised. */
  datatype Outcome = Done(files: FileMap) | Aborted(failure: Failure)

  /** append_file: the text goes after the existing content; a missing file raises. */
  function AppendFile(files: FileMap, path: Path, text: string): (r: Outcome)
    ensures r.Aborted? <==> path !in files
    ensures r.Done? ==> r.files.Keys == files.Keys
    ensures r.Done? ==> r.files[path] == files[path] + text
    ensures r.Done? ==> forall p :: p in files && p != path ==> r.files[p] == files[p]
  {
    if path !in files then Aborted(MissingFile(path))
    else Done(files[path := files[path] + text])
  }

  /** The guard of append_once: the file exists and already holds `content.strip`. */
  predicate AlreadyHolds(files: FileMap, path: Path, content: string) {
    path in files && Contains(files[path], Strip(content))
  }

  /**
   * append_once: append `content` unless the file already contains it,
   * stripped. It never adds a file, and the only exception it can raise is
   * the one for its own file being missing.
   */
  function AppendOnce(files: FileMap, path: Path, content: string): (r: Outcome)
    ensures r.Aborted? ==> r.failure == MissingFile(path)
    ensures r.Done? ==> r.files.Keys == files.Keys
  {
    if AlreadyHolds(files, path, content) then Done(files)
    else AppendFile(files, path, content)
  }

  /**
   * append_once leaves the files alone exactly when the guard holds, fails
   * only on a missing file, and otherwise only appends to its own file: the
   * old content stays a prefix and every other file is unchanged.
   */
  lemma AppendOnceEffect(files: FileMap, path: Path, content: string)
    ensures var r := AppendOnce(files, path, content);
      && (r.Aborted? <==> path !in files)
      && (r == Done(files) <==> AlreadyHolds(files, path, content))
      && (r.Done? ==> r.files.Keys == files.Keys && files[path] <= r.files[path])
      && (r.Done? ==> forall p :: p in files && p != path ==> r.files[p] == files[p])
  {
    var r := AppendOnce(files, path, content);
    if r.Done? && !AlreadyHolds(files, path, content) {
      AppendedNotHeld(files[path], content);
      assert r.files[path] != files[path];
    }
  }

  /** Appending text the file does not hold, even stripped, changes the file. */
  lemma AppendedNotHeld(old_text: string, content: string)
    requires !Contains(old_text, Strip(content))
    ensures old_text + content != old_text
  {
    ContainsEmpty(old_text);
    assert Strip([]) == [];
  }

  /** After append_once succeeds, the file holds `content.strip`. */
  lemma {:induction false} AppendOnceEstablishes(files: FileMap, path: Path, content: string)
    requires AppendOnce(files, path, content).Done?
    ensures AlreadyHolds(AppendOnce(files, path, content).files, path, content)
  {
    if !AlreadyHolds(files, path, content) {
      var g := AppendOnce(files, path, content).files;
      StripIsInfix(content);
      ContainsAppend(files[path], content, Strip(content));
      assert g[path] == files[path] + content;
    }
  }

  /** append_once is idempotent: a second call with the same text changes nothing. */
  lemma AppendOnceIdempotent(files: FileMap, path: Path, content: string)
    ensures var r := AppendOnce(files, path, content);
      r.Done? ==> AppendOnce(r.files, path, content) == r
  {
    var r := AppendOnce(files, path, content);
    if r.Done? {
      AppendOnceEstablishes(files, path, content);
    }
  }

  /**
   * gsub_file with a String pattern: the file is read, every occurrence is
   * replaced as String#gsub does, and the file is written back; a missing
   * file raises.
   */
  function GsubLiteral(files: FileMap, path: Path, pattern: string, replacement: string): (r: Outcome)
    ensures r.Aborted? <==> path !in files
    ensures r.Done? ==> r.files.Keys == files.Keys
    ensures r.Done? ==> r.files[path] == ReplaceAll(files[path], pattern, replacement)
    ensures r.Done? ==> forall p :: p in files && p != path ==> r.files[p] == files[p]
  {
    if path !in files then Aborted(MissingFile(path))
    else Done(files[path := ReplaceAll(files[path], pattern, replacement)])
  }

  /**
   * A literal gsub whose pattern is absent leaves the file as it was. One
   * whose pattern is present keeps the text before the first match, puts
   * the replacement in its place and goes on replacing in the rest, so the
   * file afterwards holds the replacement.
   */
  lemma GsubLiteralEffect(files: FileMap, path: Path, pattern: string, replacement: string)
    requires path in files && pattern != []
    ensures var s := files[path];
      var r := GsubLiteral(files, path, pattern, replacement);
      && (!Contains(s, pattern) ==> r == Done(files))
      && (Contains(s, pattern) ==> Contains(r.files[path], replacement))
      && forall i: nat :: FirstAt(s, pattern, i) ==>
           r.files[path] == s[..i] + replacement + ReplaceAll(s[i + |pattern|..], pattern, replacement)
  {
    var s := files[path];
    if Contains(s, pattern) {
      ReplaceAllPresent(s, pattern, replacement);
    } else {
      ReplaceAllAbsent(s, pattern, replacement);
    }
    forall i: nat | FirstAt(s, pattern, i)
      ensures ReplaceAll(s, pattern, replacement)
        == s[..i] + replacement + ReplaceAll(s[i + |pattern|..], pattern, replacement)
    {
      ReplaceAllAtFirst(s, pattern, replacement, i);
    }
  }

  /**
   * A literal gsub whose replacement begins with its own pattern is not
   * idempotent: run twice on a file holding the pattern, the file grows again.
   */
  lemma GsubLiteralNotIdempotent(files: FileMap, path: Path, pattern: string, tail: string)
    requires path in files && pattern != [] && tail != [] && Contains(files[path], pattern)
    ensures var once := GsubLiteral(files, path, pattern, pattern + tail);
      && once.Done?
      && |once.files[path]| >= |files[path]| + |tail|
      && var twice := GsubLiteral(once.files, path, pattern, pattern + tail);
      && twice.Done?
      && |twice.files[path]| >= |once.files[path]| + |tail|
      && twice != once
  {
    ReplaceAllNotIdempotent(files[path], pattern, tail);
    var once := GsubLiteral(files, path, pattern, pattern + tail);
    var twice := GsubLiteral(once.files, path, pattern, pattern + tail);
    assert twice.files[path] != once.files[path];
  }

  /**
   * Run twice, a literal gsub whose replacement is its pattern followed by
   * an inert tail matches again where it first matched, and leaves the
   * pattern followed by the tail twice there; the text before that first
   * match is never touched.
   */
  lemma GsubLiteralTwice(files: FileMap, path: Path, pattern: string, tail: string, i: nat)
    requires path in files && pattern != [] && FirstAt(files[path], pattern, i) && Inert(tail, pattern)
    ensures var s := files[path];
      var rest := ReplaceAll(s[i + |pattern|..], pattern, pattern + tail);
      var once := GsubLiteral(files, path, pattern, pattern + tail);
      && once.Done?
      && once.files[path] == s[..i] + pattern + tail + rest
      && var twice := GsubLiteral(once.files, path, pattern, pattern + tail);
      && twice.Done?
      && twice.files[path] == s[..i] + pattern + tail + tail + ReplaceAll(rest, pattern, pattern + tail)
  {
    ReplaceAllTwice(files[path], pattern, tail, i);
  }

  /**
   * A literal gsub_file whose replacement is its pattern followed by an
   * inert tail, run twice on a file holding the pattern: the text before
   * the first match stays as it was, and the pattern there is followed by
   * the tail twice.
   */
  lemma GsubLiteralRepeats(files: FileMap, path: Path, pattern: string, tail: string)
    requires path in files && pattern != [] && Contains(files[path], pattern) && Inert(tail, pattern)
    ensures var s := files[path];
      var once := GsubLiteral(files, path, pattern, pattern + tail);
      && once.Done?
      && var twice := GsubLiteral(once.files, path, pattern, pattern + tail);
      && twice.Done?
      && Contains(twice.files[path], pattern + tail + tail)
      && forall i: nat :: FirstAt(s, pattern, i) ==>
           && i + |pattern + tail + tail| <= |twice.files[path]|
           && twice.files[path][..i] == s[..i]
           && StartsWith(twice.files[path][i..], pattern + tail + tail)
  {
    var s := files[path];
    FirstAtExists(s, pattern);
    var once := GsubLiteral(files, path, pattern, pattern + tail);
    var twice := GsubLiteral(once.files, path, pattern, pattern + tail);
    forall i: nat | FirstAt(s, pattern, i)
      ensures i + |pattern + tail + tail| <= |twice.files[path]|
      ensures twice.files[path][..i] == s[..i]
      ensures StartsWith(twice.files[path][i..], pattern + tail + tail)
    {
      GsubLiteralTwice(files, path, pattern, tail, i);
      TwiceAt(s[..i], pattern, tail, ReplaceAll(ReplaceAll(s[i + |pattern|..], pattern, pattern + tail), pattern, pattern + tail));
    }
    var i: nat :| FirstAt(s, pattern, i);
    assert StartsWith(twice.files[path][i..], pattern + tail + tail);
  }

  /**
   * gsub_file with /\A[\s\S]*\z/: the pattern matches the whole content, the
   * empty content included, and matches nowhere else, so the file becomes
   * the replacement whatever it held. A missing file raises.
   */
  function GsubWhole(files: FileMap, path: Path, replacement: string): (r: Outcome)
    ensures r.Aborted? <==> path !in files
    ensures r.Done? ==> r.files.Keys == files.Keys && r.files[path] == replacement
    ensures r.Done? ==> forall p :: p in files && p != path ==> r.files[p] == files[p]
  {
    if path !in files then Aborted(MissingFile(path))
    else Done(files[path := replacement])
  }

  /** Replacing the whole file is idempotent, unlike a literal gsub. */
  lemma GsubWholeIdempotent(files: FileMap, path: Path, replacement: string)
    ensures var r := GsubWhole(files, path, replacement);
      r.Done? ==> GsubWhole(r.files, path, replacement) == r
  {
  }

  /** file (create_file): the path holds exactly the given body afterwards. */
  function CreateFile(files: FileMap, path: Path, body: string): (r: FileMap)
    ensures r.Keys == files.Keys + {path} && r[path] == body
    ensures forall p :: p in files && p != path ==> r[p] == files[p]
  {
    files[path := body]
  }

  /** remove_file: the path is gone afterwards; a missing path is no error. */
  function RemoveFile(files: FileMap, path: Path): (r: FileMap)
    ensures r.Keys == files.Keys - {path}
    ensures forall p :: p in r ==> r[p] == files[p]
  {
    files - {path}
  }
}
