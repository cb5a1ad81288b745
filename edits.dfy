/**
 * The template's own text edits on generated files: the literal gsub_file
 * calls, with the exact patterns and replacements the template uses.
 */
module TemplateEdits {
  import opened RubyText
  import opened ProjectFiles
  import opened Entrypoint

  const LayoutPath: Path := "app/views/layouts/application.html.erb"
  const ControllerPath: Path := "app/controllers/application_controller.rb"
  const ApplicationPath: Path := "config/application.rb"

  /** The Pundit hooks go right after the class line of ApplicationController. */
  const PunditPattern: string := "class " + "ApplicationController < ActionController::Base\n"
  const PunditHooks: string :=
    PunditInclude + PunditAuthenticate + "\n" + PunditRescue + "\n"
    + "  private\n" + "\n" + "  def user_not_authorized\n" + PunditRedirect + "  end\n"

  /*
   * The hook lines that hold a 'c', the first letter of the class line, are
   * written in pieces that start at each 'c', so that the proofs below can
   * look at one piece at a time.
   */
  const PunditInclude: string := "  in" + ("c" + "lude Pundit::Authorization\n")
  const PunditAuthenticate: string := "  before_a" + ("c" + "tion :authenti") + ("c" + "ate_user!\n")
  const PunditRescue: string :=
    "  res" + ("c" + "ue_from Pundit::") + "NotAuthorizedError, " + "with: :user_not_authorized\n"
  const PunditRedirect: string :=
    "    redire" + ("c" + "t_to(request.") + "referrer || root_path, " + "alert: \"Not authorized.\")\n"
  const PunditReplacement: string := PunditPattern + PunditHooks

  /** The controller the template writes after Devise: the class line, the auth filter, `end`. */
  const ControllerRest: string := "  before_action :authenticate_user!\nend\n"
  const ControllerBody: string := PunditPattern + ControllerRest

  /** Rack::Attack is added as a middleware right after the Application class line. */
  const RackAttackPattern: string := "class " + "Application < Rails::Application\n"
  /** The middleware line, in pieces that start at each of its 'c's. */
  const RackAttackLine: string :=
    "    " + ("c" + "onfig.middleware.use Ra") + ("c" + "k::Atta") + ("c" + "k\n")
  const RackAttackReplacement: string := RackAttackPattern + RackAttackLine

  /** The mount node goes right after the layout's <body> tag. */
  const BodyTag: string := "<body>"
  const MountDivOpen: string := "\n    <div id=\""
  const MountDivClose: string := "\"></div>"
  const MountDiv: string := MountDivOpen + MountId + MountDivClose
  const BodyReplacement: string := BodyTag + MountDiv

  /** Any text holds each of its infixes. */
  lemma ContainsInfix(a: string, m: string, b: string)
    ensures Contains(a + m + b, m)
  {
    assert (a + m + b)[|a|..] == m + b;
    assert StartsWith((a + m + b)[|a|..], m);
  }

  lemma ContainsSuffix(a: string, m: string)
    ensures Contains(a + m, m)
  {
    assert (a + m)[|a|..] == m;
    assert StartsWith((a + m)[|a|..], m);
  }

  /**
   * The mount-node edit: on a layout holding <body>, the layout afterwards
   * holds <body> followed by the mount div, whose id is the one the
   * entrypoint script looks up.
   */
  lemma BodyGetsMountNode(files: FileMap)
    requires LayoutPath in files && Contains(files[LayoutPath], BodyTag)
    ensures var r := GsubLiteral(files, LayoutPath, BodyTag, BodyReplacement);
      && r.Done?
      && Contains(r.files[LayoutPath], BodyReplacement)
      && Contains(r.files[LayoutPath], MountDiv)
      && Contains(r.files[LayoutPath], MountId)
  {
    var r := GsubLiteral(files, LayoutPath, BodyTag, BodyReplacement);
    GsubLiteralEffect(files, LayoutPath, BodyTag, BodyReplacement);
    ContainsInfix(MountDivOpen, MountId, MountDivClose);
    ContainsSuffix(BodyTag, MountDiv);
    ContainsTrans(r.files[LayoutPath], BodyReplacement, MountDiv);
    ContainsTrans(r.files[LayoutPath], MountDiv, MountId);
  }

  /** No <body> can start inside the mount div, whatever follows it. */
  lemma MountDivInert()
    ensures Inert(MountDiv, BodyTag)
  {
    var pat := BodyTag;
    assert MountDivOpen == "\n    " + ("<" + "div id=\"");
    assert MountDivClose == "\">" + ("<" + "/div>");
    assert Inert("\n    ", pat) by { InertByFirst("\n    ", pat); }
    MismatchAt("<" + "div id=\"", pat, 1);
    InertLead("<", "div id=\"", pat);
    InertConcat("\n    ", "<" + "div id=\"", pat);
    assert Inert(MountId, pat) by { InertByFirst(MountId, pat); }
    InertConcat(MountDivOpen, MountId, pat);
    assert Inert("\">", pat) by { InertByFirst("\">", pat); }
    MismatchAt("<" + "/div>", pat, 1);
    InertLead("<", "/div>", pat);
    InertConcat("\">", "<" + "/div>", pat);
    InertConcat(MountDivOpen + MountId, MountDivClose, pat);
  }

  /**
   * The mount-node edit is not idempotent: its replacement begins with
   * <body>, so a second run matches the same <body> again and leaves two
   * mount divs after it; everything before that <body> stays as it was.
   */
  lemma BodyEditNotIdempotent(files: FileMap)
    requires LayoutPath in files && Contains(files[LayoutPath], BodyTag)
    ensures var s := files[LayoutPath];
      var once := GsubLiteral(files, LayoutPath, BodyTag, BodyReplacement);
      && once.Done?
      && var twice := GsubLiteral(once.files, LayoutPath, BodyTag, BodyReplacement);
      && twice.Done?
      && |twice.files[LayoutPath]| >= |once.files[LayoutPath]| + |MountDiv|
      && Contains(twice.files[LayoutPath], BodyTag + MountDiv + MountDiv)
      && forall i: nat :: FirstAt(s, BodyTag, i) ==>
           && i + |BodyTag + MountDiv + MountDiv| <= |twice.files[LayoutPath]|
           && twice.files[LayoutPath][..i] == s[..i]
           && StartsWith(twice.files[LayoutPath][i..], BodyTag + MountDiv + MountDiv)
  {
    GsubLiteralNotIdempotent(files, LayoutPath, BodyTag, MountDiv);
    MountDivInert();
    GsubLiteralRepeats(files, LayoutPath, BodyTag, MountDiv);
  }

  /** No Application class line can start inside the middleware line. */
  lemma RackAttackLineInert()
    ensures Inert(RackAttackLine, RackAttackPattern)
  {
    var pat := RackAttackPattern;
    assert Inert("    ", pat) by { InertByFirst("    ", pat); }
    assert Inert("c" + "onfig.middleware.use Ra", pat) by { LeadInert("onfig.middleware.use Ra", pat, 1); }
    assert Inert("c" + "k::Atta", pat) by { LeadInert("k::Atta", pat, 1); }
    assert Inert("c" + "k\n", pat) by { LeadInert("k\n", pat, 1); }
    InertConcat("    ", "c" + "onfig.middleware.use Ra", pat);
    InertConcat("    " + ("c" + "onfig.middleware.use Ra"), "c" + "k::Atta", pat);
    InertConcat("    " + ("c" + "onfig.middleware.use Ra") + ("c" + "k::Atta"), "c" + "k\n", pat);
  }

  /**
   * A piece that starts with 'c' and has no other 'c' holds no class line
   * when it differs from the class line at its k-th character.
   */
  lemma LeadInert(rest: string, pat: string, k: nat)
    requires pat != [] && pat[0] == 'c' && 'c' !in rest
    requires 0 < k <= |rest| && k < |pat| && rest[k - 1] != pat[k]
    ensures Inert("c" + rest, pat)
  {
    MismatchAt("c" + rest, pat, k);
    InertLead("c", rest, pat);
  }

  /**
   * The Rack::Attack edit is not idempotent: a second run matches the class
   * line again and leaves the middleware line twice after it.
   */
  lemma RackAttackEditNotIdempotent(files: FileMap)
    requires ApplicationPath in files && Contains(files[ApplicationPath], RackAttackPattern)
    ensures var s := files[ApplicationPath];
      var once := GsubLiteral(files, ApplicationPath, RackAttackPattern, RackAttackReplacement);
      && once.Done?
      && var twice := GsubLiteral(once.files, ApplicationPath, RackAttackPattern, RackAttackReplacement);
      && twice.Done?
      && |twice.files[ApplicationPath]| >= |once.files[ApplicationPath]| + |RackAttackLine|
      && Contains(twice.files[ApplicationPath], RackAttackPattern + RackAttackLine + RackAttackLine)
      && forall i: nat :: FirstAt(s, RackAttackPattern, i) ==>
           && i + |RackAttackPattern + RackAttackLine + RackAttackLine| <= |twice.files[ApplicationPath]|
           && twice.files[ApplicationPath][..i] == s[..i]
           && StartsWith(twice.files[ApplicationPath][i..], RackAttackPattern + RackAttackLine + RackAttackLine)
  {
    GsubLiteralNotIdempotent(files, ApplicationPath, RackAttackPattern, RackAttackLine);
    RackAttackLineInert();
    GsubLiteralRepeats(files, ApplicationPath, RackAttackPattern, RackAttackLine);
  }

  /**
   * On the controller the template itself wrote, the Pundit edit matches
   * once, at the class line: the file becomes the hooks followed by the
   * rest of that controller, so `before_action :authenticate_user!` is there
   * twice, once from each text.
   */
  lemma PunditOnWrittenController(files: FileMap)
    ensures var written := CreateFile(RemoveFile(files, ControllerPath), ControllerPath, ControllerBody);
      GsubLiteral(written, ControllerPath, PunditPattern, PunditReplacement)
        == Done(written[ControllerPath := PunditReplacement + ControllerRest])
  {
    var b := ControllerBody;
    assert StartsWith(b, PunditPattern);
    assert b[|PunditPattern|..] == ControllerRest;
    assert !Contains(ControllerRest, PunditPattern) by {
      assert |ControllerRest| < |PunditPattern|;
    }
    ReplaceAllAbsent(ControllerRest, PunditPattern, PunditReplacement);
  }

  /** No ApplicationController class line can start inside the Pundit hooks. */
  lemma PunditHooksInert()
    ensures Inert(PunditHooks, PunditPattern)
  {
    var pat := PunditPattern;
    PunditIncludeInert();
    PunditAuthenticateInert();
    PunditRescueInert();
    PunditRedirectInert();
    assert Inert("\n", pat) by { InertByFirst("\n", pat); }
    assert Inert("  private\n", pat) by { InertByFirst("  private\n", pat); }
    assert Inert("  def user_not_authorized\n", pat) by { InertByFirst("  def user_not_authorized\n", pat); }
    assert Inert("  end\n", pat) by { InertByFirst("  end\n", pat); }
    var h := PunditInclude;
    InertConcat(h, PunditAuthenticate, pat);
    h := h + PunditAuthenticate;
    InertConcat(h, "\n", pat);
    h := h + "\n";
    InertConcat(h, PunditRescue, pat);
    h := h + PunditRescue;
    InertConcat(h, "\n", pat);
    h := h + "\n";
    InertConcat(h, "  private\n", pat);
    h := h + "  private\n";
    InertConcat(h, "\n", pat);
    h := h + "\n";
    InertConcat(h, "  def user_not_authorized\n", pat);
    h := h + "  def user_not_authorized\n";
    InertConcat(h, PunditRedirect, pat);
    h := h + PunditRedirect;
    InertConcat(h, "  end\n", pat);
  }

  lemma PunditIncludeInert()
    ensures Inert(PunditInclude, PunditPattern)
  {
    assert Inert("  in", PunditPattern) by { InertByFirst("  in", PunditPattern); }
    assert Inert("c" + "lude Pundit::Authorization\n", PunditPattern) by { LeadInert("lude Pundit::Authorization\n", PunditPattern, 2); }
    InertConcat("  in", "c" + "lude Pundit::Authorization\n", PunditPattern);
  }

  lemma PunditAuthenticateInert()
    ensures Inert(PunditAuthenticate, PunditPattern)
  {
    var pat := PunditPattern;
    assert Inert("  before_a", pat) by { InertByFirst("  before_a", pat); }
    assert Inert("c" + "tion :authenti", pat) by { LeadInert("tion :authenti", pat, 1); }
    assert Inert("c" + "ate_user!\n", pat) by { LeadInert("ate_user!\n", pat, 1); }
    InertConcat("  before_a", "c" + "tion :authenti", pat);
    InertConcat("  before_a" + ("c" + "tion :authenti"), "c" + "ate_user!\n", pat);
  }

  lemma PunditRescueInert()
    ensures Inert(PunditRescue, PunditPattern)
  {
    var pat := PunditPattern;
    var p1, p2, p3, p4 := "  res", "c" + "ue_from Pundit::", "NotAuthorizedError, ", "with: :user_not_authorized\n";
    assert Inert(p1, pat) by { InertByFirst(p1, pat); }
    assert Inert(p2, pat) by { LeadInert("ue_from Pundit::", pat, 1); }
    assert Inert(p3, pat) by { InertByFirst(p3, pat); }
    assert Inert(p4, pat) by { InertByFirst(p4, pat); }
    InertConcat(p1, p2, pat);
    InertConcat(p1 + p2, p3, pat);
    InertConcat(p1 + p2 + p3, p4, pat);
  }

  lemma PunditRedirectInert()
    ensures Inert(PunditRedirect, PunditPattern)
  {
    var pat := PunditPattern;
    var p1, p2, p3, p4 := "    redire", "c" + "t_to(request.", "referrer || root_path, ", "alert: \"Not authorized.\")\n";
    assert Inert(p1, pat) by { InertByFirst(p1, pat); }
    assert Inert(p2, pat) by { LeadInert("t_to(request.", pat, 1); }
    assert Inert(p3, pat) by { InertByFirst(p3, pat); }
    assert Inert(p4, pat) by { InertByFirst(p4, pat); }
    InertConcat(p1, p2, pat);
    InertConcat(p1 + p2, p3, pat);
    InertConcat(p1 + p2 + p3, p4, pat);
  }

  /**
   * The Pundit edit is not idempotent either: its replacement begins with
   * the class line, so a second run leaves the hooks twice after it.
   */
  lemma PunditEditNotIdempotent(files: FileMap)
    requires ControllerPath in files && Contains(files[ControllerPath], PunditPattern)
    ensures var s := files[ControllerPath];
      var once := GsubLiteral(files, ControllerPath, PunditPattern, PunditReplacement);
      && once.Done?
      && var twice := GsubLiteral(once.files, ControllerPath, PunditPattern, PunditReplacement);
      && twice.Done?
      && |twice.files[ControllerPath]| >= |once.files[ControllerPath]| + |PunditHooks|
      && Contains(twice.files[ControllerPath], PunditPattern + PunditHooks + PunditHooks)
      && forall i: nat :: FirstAt(s, PunditPattern, i) ==>
           && i + |PunditPattern + PunditHooks + PunditHooks| <= |twice.files[ControllerPath]|
           && twice.files[ControllerPath][..i] == s[..i]
           && StartsWith(twice.files[ControllerPath][i..], PunditPattern + PunditHooks + PunditHooks)
  {
    GsubLiteralNotIdempotent(files, ControllerPath, PunditPattern, PunditHooks);
    PunditHooksInert();
    GsubLiteralRepeats(files, ControllerPath, PunditPattern, PunditHooks);
  }
}
