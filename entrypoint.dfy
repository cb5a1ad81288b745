/**
 * The Vite entrypoint step: after `vite:install`, the React mount script is
 * written into application.js when it exists, else into application.tsx when
 * that exists, else a new application.js is created with it.
 */
module Entrypoint {
  import opened RubyText
  import opened ProjectFiles

  const EntrypointJs: Path := "app/frontend/entrypoints/application.js"
  const EntrypointTsx: Path := "app/frontend/entrypoints/application.tsx"

  /** The id of the element the script mounts into; the layout gets a div with it. */
  const MountId: string := "react-root"

  /**
   * The mount script, cut around its two dashed words, the import of
   * react-dom and MountId, and written in pieces of at most one line.
   */
  const MountHead: string := "import React from \"react\";\n" + "import { createRoot } from \""
  const ReactDom: string := "react-dom"
  const MountMiddle: string :=
    "/client\";\n" + "import App from \"../App\";\n\n" + "document.addEventListener("
    + "\"DOMContentLoaded\", () => {\n" + "  const el = document.getElementById(\""
  const MountTail: string := "\");\n" + "  if (el) createRoot(el).render(<App />);\n" + "});\n"

  /** The body of the three heredocs, all three the same text. */
  const MountScript: string := MountHead + (ReactDom + (MountMiddle + (MountId + MountTail)))

  /**
   * The file the step writes: one of the two entrypoints, and an existing
   * one unless it is application.js, the only one the step may create.
   */
  function EntrypointTarget(files: FileMap): (p: Path)
    ensures p == EntrypointJs || p == EntrypointTsx
    ensures p in files || p == EntrypointJs
  {
    if EntrypointJs in files then EntrypointJs
    else if EntrypointTsx in files then EntrypointTsx
    else EntrypointJs
  }

  /**
   * The three-way branch: replace the whole of application.js, else the whole
   * of application.tsx, else create application.js.
   */
  function MountEntrypoint(files: FileMap): (r: Outcome)
    ensures r.Done?
    ensures EntrypointTarget(files) in r.files && r.files[EntrypointTarget(files)] == MountScript
  {
    if EntrypointJs in files then GsubWhole(files, EntrypointJs, MountScript)
    else if EntrypointTsx in files then GsubWhole(files, EntrypointTsx, MountScript)
    else Done(CreateFile(files, EntrypointJs, MountScript))
  }

  /**
   * The branch picks application.js whenever it exists, even next to an
   * application.tsx; application.tsx only when it is the one file present;
   * and application.js, to be created, when neither exists.
   */
  lemma TargetChoice(files: FileMap)
    ensures EntrypointJs in files ==> EntrypointTarget(files) == EntrypointJs
    ensures EntrypointTarget(files) == EntrypointTsx <==> EntrypointTsx in files && EntrypointJs !in files
    ensures EntrypointTarget(files) == EntrypointJs <==> !(EntrypointTsx in files && EntrypointJs !in files)
  {
    assert |EntrypointJs| != |EntrypointTsx|;
  }

  /**
   * Every branch guards its file's existence, so the step never raises, and
   * it writes exactly one file, the target, which then holds the mount
   * script; every other file is as it was, and only a created
   * application.js is new.
   */
  lemma MountEntrypointEffect(files: FileMap)
    ensures var r := MountEntrypoint(files);
      && r.Done?
      && r.files == files[EntrypointTarget(files) := MountScript]
      && r.files.Keys == files.Keys + {EntrypointTarget(files)}
      && (EntrypointTarget(files) !in files <==> EntrypointJs !in files && EntrypointTsx !in files)
      && forall p :: p in files && p != EntrypointTarget(files) ==> r.files[p] == files[p]
  {
  }

  /** Running the step again writes the same file with the same text: nothing changes. */
  lemma MountEntrypointIdempotent(files: FileMap)
    ensures var r := MountEntrypoint(files);
      r.Done? && MountEntrypoint(r.files) == r
  {
    var r := MountEntrypoint(files);
    MountEntrypointEffect(files);
    TargetChoice(files);
    TargetChoice(r.files);
    assert EntrypointTarget(r.files) == EntrypointTarget(files);
    MountEntrypointEffect(r.files);
  }

  /** The positions at which `pat` starts in `s`. */
  function Occurrences(s: string, pat: string): (r: set<nat>)
    ensures forall i :: i in r ==> i + |pat| <= |s| && s[i..i + |pat|] == pat
  {
    set i: nat | i <= |s| && StartsWith(s[i..], pat)
  }

  /**
   * A pattern whose k-th character `c` appears nowhere else occurs in
   * x + d + y + p + z exactly once, at p, when x, y and z hold no `c` and the
   * decoy d has `c` only at k too but differs from p just after it.
   */
  lemma {:induction false} UniqueMarker(x: string, d: string, y: string, p: string, z: string, k: nat)
    requires k + 1 < |d| && k + 1 < |p|
    requires d[k] == p[k] && d[k + 1] != p[k + 1]
    requires p[k] !in x && p[k] !in y && p[k] !in z
    requires forall j :: 0 <= j < |d| && j != k ==> d[j] != p[k]
    requires forall j :: 0 <= j < |p| && j != k ==> p[j] != p[k]
    ensures Occurrences(x + (d + (y + (p + z))), p) == {|x| + |d| + |y|}
  {
    var c := p[k];
    var s := x + (d + (y + (p + z)));
    var at := |x| + |d| + |y|;
    MarkerPositions(x, d, y, p, z, c);
    assert s[|x| + k + 1] == d[k + 1];
    assert |x| !in Occurrences(s, p) by {
      assert s[|x|..|x| + |p|][k + 1] == s[|x| + k + 1];
    }
    forall i | i in Occurrences(s, p) ensures i == at {
      assert s[i..i + |p|][k] == s[i + k];
    }
    assert s[at..at + |p|] == p by {
      assert s == (x + d + y) + p + z;
    }
  }

  /**
   * Where `c` can sit in x + d + y + p + z: only at one of d's or p's own
   * positions of `c`.
   */
  lemma MarkerPositions(x: string, d: string, y: string, p: string, z: string, c: char)
    requires c !in x && c !in y && c !in z
    ensures var s := x + (d + (y + (p + z)));
      forall j :: 0 <= j < |s| && s[j] == c ==>
        (|x| <= j < |x| + |d| && d[j - |x|] == c)
        || (|x| + |d| + |y| <= j < |x| + |d| + |y| + |p| && p[j - |x| - |d| - |y|] == c)
  {
    var s := x + (d + (y + (p + z)));
    forall j | 0 <= j < |s| && s[j] == c
      ensures (|x| <= j < |x| + |d| && d[j - |x|] == c)
        || (|x| + |d| + |y| <= j < |x| + |d| + |y| + |p| && p[j - |x| - |d| - |y|] == c)
    {
      if j >= |x| {
        var s1 := d + (y + (p + z));
        assert s[j] == s1[j - |x|];
        var j1 := j - |x|;
        if j1 >= |d| {
          var s2 := y + (p + z);
          assert s1[j1] == s2[j1 - |d|];
          var j2 := j1 - |d|;
          if j2 >= |y| {
            var s3 := p + z;
            assert s2[j2] == s3[j2 - |y|];
          }
        }
      }
    }
  }

  /** The mount script names MountId exactly once, right after getElementById(". */
  lemma MountIdOnce()
    ensures Occurrences(MountScript, MountId) == {|MountHead| + |ReactDom| + |MountMiddle|}
  {
    DashFree();
    UniqueMarker(MountHead, ReactDom, MountMiddle, MountId, MountTail, 5);
  }

  /** The dash of "react-dom" and of MountId are the only dashes of the script. */
  lemma DashFree()
    ensures '-' !in MountHead && '-' !in MountMiddle && '-' !in MountTail
    ensures ReactDom[5] == MountId[5] == '-' && ReactDom[6] != MountId[6]
    ensures forall j :: 0 <= j < |ReactDom| && j != 5 ==> ReactDom[j] != '-'
    ensures forall j :: 0 <= j < |MountId| && j != 5 ==> MountId[j] != '-'
  {
    HeadDashFree();
    MiddleDashFree();
    TailDashFree();
  }

  lemma HeadDashFree() ensures '-' !in MountHead {}

  lemma MiddleDashFree() ensures '-' !in MountMiddle {
    NoDash1(); NoDash2(); NoDash3(); NoDash4(); NoDash5();
  }

  lemma NoDash1() ensures '-' !in "/client\";\n" {}
  lemma NoDash2() ensures '-' !in "import App from \"../App\";\n\n" {}
  lemma NoDash3() ensures '-' !in "document.addEventListener(" {}
  lemma NoDash4() ensures '-' !in "\"DOMContentLoaded\", () => {\n" {}
  lemma NoDash5() ensures '-' !in "  const el = document.getElementById(\"" {}

  lemma TailDashFree() ensures '-' !in MountTail {
    NoDash6();
  }

  lemma NoDash6() ensures '-' !in "  if (el) createRoot(el).render(<App />);\n" {}

  /** After the step, the written entrypoint names the mount element exactly once. */
  lemma MountedOnce(files: FileMap)
    ensures var r := MountEntrypoint(files);
      r.Done? && |Occurrences(r.files[EntrypointTarget(files)], MountId)| == 1
  {
    MountEntrypointEffect(files);
    MountIdOnce();
  }
}
