/**
 * The concrete cases the package's feature tests pin down, derived from the
 * general lemmas of the renderer. Each literal fact is kept in its own small
 * lemma so that no proof has to evaluate a string function on a literal.
 */
module FeatureExamples {
  import opened Strings
  import TagScanner
  import opened Renderer

  // ---------------------------------------------------------------------
  // Variable substitution
  // ---------------------------------------------------------------------

  lemma GreetingNoBraces()
    ensures NoBrace("Hello ") && NoBrace(", welcome to ") && NoBrace("!") && NoBrace("John") && NoBrace("Acme Corp")
  {}

  lemma GreetingNames()
    ensures IsIdentifier("name") && IsIdentifier("company") && "name" != "company"
  {}

  lemma GreetingTemplate()
    ensures "Hello {{ name }}, welcome to {{ company }}!"
         == "Hello " + SpacedPlaceholder("name") + ", welcome to " + SpacedPlaceholder("company") + "!"
  {}

  lemma GreetingText()
    ensures "Hello " + "John" + ", welcome to " + "Acme Corp" + "!" == "Hello John, welcome to Acme Corp!"
  {}

  /** The greeting of the variables test: both placeholders are filled in. */
  lemma GreetingSubstituted()
    ensures Substitute("Hello {{ name }}, welcome to {{ company }}!", [("name", "John"), ("company", "Acme Corp")])
         == "Hello John, welcome to Acme Corp!"
  {
    GreetingNoBraces();
    GreetingNames();
    GreetingTemplate();
    GreetingText();
    SubstituteTwoPlaceholders("Hello ", "name", ", welcome to ", "company", "!", "John", "Acme Corp");
  }

  // ---------------------------------------------------------------------
  // Subject sanitising
  // ---------------------------------------------------------------------

  /** A line break pair disappears entirely. */
  lemma LineBreakDeleted()
    ensures WithoutChars("\r\n", HeaderBreakChars) == []
  {
    assert "\r\n"[1..] == "\n";
    assert "\n"[1..] == [];
  }

  /** Break-free text before a deleted separator is kept as it is. */
  lemma DeletedAfter(a: string, br: string, b: string)
    requires forall i :: 0 <= i < |a| ==> a[i] !in HeaderBreakChars
    requires WithoutChars(br, HeaderBreakChars) == []
    ensures WithoutChars(a + br + b, HeaderBreakChars) == a + WithoutChars(b, HeaderBreakChars)
  {
    WithoutCharsConcat(a + br, b, HeaderBreakChars);
    WithoutCharsConcat(a, br, HeaderBreakChars);
    WithoutCharsNone(a, HeaderBreakChars);
  }

  /** Three break-free lines joined by a deleted separator come out concatenated. */
  lemma ThreeLinesJoined(s: string, a: string, br: string, b: string, c: string)
    requires s == a + br + (b + br + c)
    requires forall i :: 0 <= i < |a| ==> a[i] !in HeaderBreakChars
    requires forall i :: 0 <= i < |b| ==> b[i] !in HeaderBreakChars
    requires forall i :: 0 <= i < |c| ==> c[i] !in HeaderBreakChars
    requires WithoutChars(br, HeaderBreakChars) == []
    ensures WithoutChars(s, HeaderBreakChars) == a + b + c
  {
    DeletedAfter(a, br, b + br + c);
    DeletedAfter(b, br, c);
    WithoutCharsNone(c, HeaderBreakChars);
  }

  lemma InjectedSubjectLines()
    ensures "Test\r\nBcc: hacker@evil.com\r\nSubject: Hacked"
         == "Test" + "\r\n" + ("Bcc: hacker@evil.com" + "\r\n" + "Subject: Hacked")
  {}

  lemma InjectedSubjectText()
    ensures "Test" + "Bcc: hacker@evil.com" + "Subject: Hacked" == "TestBcc: hacker@evil.comSubject: Hacked"
  {}

  lemma InjectedSubjectBreakFree()
    ensures forall i :: 0 <= i < |"Test"| ==> "Test"[i] !in HeaderBreakChars
    ensures forall i :: 0 <= i < |"Bcc: hacker@evil.com"| ==> "Bcc: hacker@evil.com"[i] !in HeaderBreakChars
    ensures forall i :: 0 <= i < |"Subject: Hacked"| ==> "Subject: Hacked"[i] !in HeaderBreakChars
  {}

  /** The header-injection test: the line breaks go and everything else stays. */
  lemma InjectedSubjectCleaned(renderer: MarkdownEmailRenderer)
    ensures renderer.SanitizeSubject("Test\r\nBcc: hacker@evil.com\r\nSubject: Hacked")
         == "TestBcc: hacker@evil.comSubject: Hacked"
  {
    InjectedSubjectLines();
    InjectedSubjectText();
    InjectedSubjectBreakFree();
    LineBreakDeleted();
    ThreeLinesJoined("Test\r\nBcc: hacker@evil.com\r\nSubject: Hacked",
      "Test", "\r\n", "Bcc: hacker@evil.com", "Subject: Hacked");
  }

  // ---------------------------------------------------------------------
  // HTML filtering
  // ---------------------------------------------------------------------

  lemma ScriptName()
    ensures TagScanner.TagName("<script>") == "script"
  {}

  lemma ScriptCloseName()
    ensures TagScanner.TagName("</script>") == "script"
  {
    assert "</script>"[1..][1..] == "script>";
    assert TagScanner.NameRun("script>") == TagScanner.NameRun("<script>"[1..]);
    ScriptName();
  }

  lemma StrongName()
    ensures TagScanner.TagName("<strong>") == "strong"
  {}

  lemma StrongCloseName()
    ensures TagScanner.TagName("</strong>") == "strong"
  {
    assert "</strong>"[1..][1..] == "strong>";
    assert TagScanner.NameRun("strong>") == TagScanner.NameRun("<strong>"[1..]);
    StrongName();
  }

  lemma FilterTestLists()
    ensures ToLower("script") == "script" && ToLower("strong") == "strong"
    ensures forall i :: 0 <= i < |["p", "strong"]| ==> NoAngles(["p", "strong"][i])
    ensures LowerAll(["p", "strong"]) == ["p", "strong"]
  {
    var l := LowerAll(["p", "strong"]);
    assert l[0] == ToLower("p") == "p";
    assert l[1] == ToLower("strong") == "strong";
  }

  /** With `p` and `strong` allowed, `strong` tags survive the filter and `script` tags do not. */
  lemma ScriptDroppedStrongKept()
    ensures !TagScanner.Allowed("<script>", AllowString(["p", "strong"]))
    ensures !TagScanner.Allowed("</script>", AllowString(["p", "strong"]))
    ensures TagScanner.Allowed("<strong>", AllowString(["p", "strong"]))
    ensures TagScanner.Allowed("</strong>", AllowString(["p", "strong"]))
  {
    ScriptName();
    ScriptCloseName();
    StrongName();
    StrongCloseName();
    FilterTestLists();
    AllowedIffListed(["p", "strong"], "<script>");
    AllowedIffListed(["p", "strong"], "</script>");
    AllowedIffListed(["p", "strong"], "<strong>");
    AllowedIffListed(["p", "strong"], "</strong>");
  }
}
