/**
 * The markdown email renderer: variable substitution, the HTML tag filter
 * driven by the configured allow-list, subject sanitising, and the `render` /
 * `create` orchestration over an abstract markdown converter and an abstract
 * view renderer.
 */
module Renderer {
  import opened Wrappers
  import opened Strings
  import TagScanner
  import Email

  /** The variable map, in its iteration order; keys and values are strings. */
  type Variables = seq<(string, string)>

  /** The `template` section of the configuration. */
  datatype TemplateSettings = TemplateSettings(
    businessName: string,
    logoUrl: string,
    logoWidth: int,
    logoHeight: int,
    baseView: string)

  /** The configuration values the renderer reads. */
  datatype Config = Config(
    template: TemplateSettings,
    storeEmails: bool,
    sanitizeContent: bool,
    allowedHtmlTags: seq<string>,
    markdownExtensions: seq<string>,
    links: seq<(string, Option<string>)>)

  /** The allowed tags of the shipped configuration. */
  const DefaultAllowedTags: seq<string> :=
    ["p", "br", "strong", "em", "u", "a", "ul", "ol", "li", "h1", "h2", "h3", "h4", "h5", "h6"]

  /** The shipped configuration, with every environment variable unset. */
  const DefaultConfig: Config := Config(
    TemplateSettings("Your Business Name", "/images/logo.png", 200, 80, "markdown-emails::base-template"),
    true,
    true,
    DefaultAllowedTags,
    ["table", "strikethrough", "autolink"],
    [("unsubscribe_url", None), ("privacy_policy_url", None), ("terms_of_service_url", None)])

  /** The converter extensions the renderer can enable. */
  datatype Extension = CommonMarkCore | Table | Strikethrough | Autolink

  /** The environment the markdown converter is built with. */
  datatype ConverterOptions = ConverterOptions(htmlInput: string, allowUnsafeLinks: bool, extensions: seq<Extension>)

  /** The markdown converter: HTML, or the message of the exception it raised. */
  type Converter = (ConverterOptions, string) -> Result<string, string>

  /** What the view receives. */
  datatype TemplateParameters = TemplateParameters(
    content: string,
    businessName: string,
    logoUrl: string,
    logoWidth: int,
    logoHeight: int,
    links: seq<(string, Option<string>)>,
    variables: Variables)

  /** The view renderer: the document for a view name and its parameters, or an exception message. */
  type ViewRenderer = (string, TemplateParameters) -> Result<string, string>

  /** A draft built by `create`, and whether it was saved. */
  datatype NewEmail = NewEmail(attributes: Email.Attributes, stored: bool)

  const RenderErrorPrefix := "Failed to render markdown email: "
  const DefaultTemplateUsed := "base-template"
  const SubjectLimit: nat := 255
  const LimitEnd := "..."
  const HeaderBreakChars: set<char> := {'\r', '\n', '\t'}

  /** The converter environment: raw HTML stripped, unsafe links refused, extensions as configured. */
  function ConverterSetup(config: Config): (o: ConverterOptions)
    ensures o.htmlInput == "strip" && !o.allowUnsafeLinks
    ensures |o.extensions| >= 1 && o.extensions[0] == CommonMarkCore && CommonMarkCore !in o.extensions[1..]
    ensures Table in o.extensions <==> "table" in config.markdownExtensions
    ensures Strikethrough in o.extensions <==> "strikethrough" in config.markdownExtensions
    ensures Autolink in o.extensions <==> "autolink" in config.markdownExtensions
    ensures |o.extensions| <= 4
  {
    var exts := config.markdownExtensions;
    ConverterOptions("strip", false,
      [CommonMarkCore]
      + (if "table" in exts then [Table] else [])
      + (if "strikethrough" in exts then [Strikethrough] else [])
      + (if "autolink" in exts then [Autolink] else []))
  }

  // ---------------------------------------------------------------------
  // Placeholders and substitution
  // ---------------------------------------------------------------------

  /** A character of a placeholder name. */
  predicate IdentChar(c: char) {
    ('a' <= c <= 'z') || ('A' <= c <= 'Z') || ('0' <= c <= '9') || c == '_'
  }

  /** A placeholder name: a letter or underscore, then letters, digits or underscores. */
  predicate IsIdentifier(k: string) {
    && |k| > 0
    && !('0' <= k[0] <= '9')
    && forall i :: 0 <= i < |k| ==> IdentChar(k[i])
  }

  /** The spaced placeholder `{{ key }}`. */
  function SpacedPlaceholder(key: string): string {
    "{{ " + key + " }}"
  }

  /** The unspaced placeholder `{{key}}`. */
  function UnspacedPlaceholder(key: string): string {
    "{{" + key + "}}"
  }

  /**
   * The second search string as the source spells it, `"{{$key}}"`: PHP reads
   * `{$key}` as interpolation, so the string has one brace on each side.
   */
  function SingleBraced(key: string): string {
    "{" + key + "}"
  }

  /** One step of the substitution loop as written: the spaced form, then `{key}`. */
  function ReplaceKey(markdown: string, key: string, value: string): string {
    ReplaceAll(ReplaceAll(markdown, SpacedPlaceholder(key), value), SingleBraced(key), value)
  }

  /** One step of the substitution loop as intended: the spaced form, then the unspaced form. */
  function ReplaceKeyIntended(markdown: string, key: string, value: string): string {
    ReplaceAll(ReplaceAll(markdown, SpacedPlaceholder(key), value), UnspacedPlaceholder(key), value)
  }

  /** Substitution key by key in map order; each key sees the text the earlier keys produced. */
  function Substitute(markdown: string, variables: Variables): string
    decreases |variables|
  {
    if variables == [] then markdown
    else Substitute(ReplaceKey(markdown, variables[0].0, variables[0].1), variables[1..])
  }

  /** The same loop with the intended second search string `{{key}}`. */
  function SubstituteIntended(markdown: string, variables: Variables): string
    decreases |variables|
  {
    if variables == [] then markdown
    else SubstituteIntended(ReplaceKeyIntended(markdown, variables[0].0, variables[0].1), variables[1..])
  }

  /** Substituting with `a + b` is substituting with `a`, then with `b`. */
  lemma {:induction false} SubstituteAppend(markdown: string, a: Variables, b: Variables)
    ensures Substitute(markdown, a + b) == Substitute(Substitute(markdown, a), b)
    decreases |a|
  {
    if a == [] {
      assert a + b == b;
    } else {
      assert (a + b)[0] == a[0];
      assert (a + b)[1..] == a[1..] + b;
      SubstituteAppend(ReplaceKey(markdown, a[0].0, a[0].1), a[1..], b);
    }
  }

  /** No `{` in `s`. */
  predicate NoBrace(s: string) {
    '{' !in s
  }

  /** Two distinct names never make one spaced placeholder a prefix of the other's text. */
  lemma SpacedPlaceholdersDiffer(k1: string, k2: string, z: string)
    requires IsIdentifier(k1) && IsIdentifier(k2) && k1 != k2
    ensures !IsPrefix(SpacedPlaceholder(k1), SpacedPlaceholder(k2) + z)
  {
    var p := SpacedPlaceholder(k1);
    var s := SpacedPlaceholder(k2) + z;
    assert forall i :: 0 <= i < |k1| ==> p[3 + i] == k1[i];
    assert forall i :: 0 <= i < |k2| ==> s[3 + i] == k2[i];
    if |p| <= |s| {
      if |k1| < |k2| {
        assert p[3 + |k1|] == ' ' != k2[|k1|] == s[3 + |k1|];
        assert s[..|p|][3 + |k1|] != p[3 + |k1|];
      } else if |k1| > |k2| {
        assert s[3 + |k2|] == ' ' != k1[|k2|] == p[3 + |k2|];
        assert s[..|p|][3 + |k2|] != p[3 + |k2|];
      } else {
        var i :| 0 <= i < |k1| && k1[i] != k2[i];
        assert s[..|p|][3 + i] != p[3 + i];
      }
    }
  }

  /** The single-braced name never matches at the start of a spaced placeholder. */
  lemma SingleBracedNotSpaced(k1: string, k2: string, z: string)
    requires IsIdentifier(k1)
    ensures !IsPrefix(SingleBraced(k1), SpacedPlaceholder(k2) + z)
  {
    var p := SingleBraced(k1);
    var s := SpacedPlaceholder(k2) + z;
    assert p[1] == k1[0] && s[1] == '{';
    MissAt(p, s, 1);
  }

  /** After its two opening braces, a spaced placeholder has no brace. */
  lemma SpacedTailNoBrace(key: string)
    requires IsIdentifier(key)
    ensures NoBrace(" " + key + " }}")
  {
    var w := " " + key + " }}";
    assert forall i :: 0 <= i < |key| ==> w[1 + i] == key[i];
  }

  /**
   * A search string starting with `{`, not followed by a space, that does not
   * match `{{ name }}...` leaves the placeholder in place.
   */
  lemma ReplaceAllSkipsPlaceholder(key: string, z: string, search: string, value: string)
    requires IsIdentifier(key)
    requires |search| >= 2 && search[0] == '{' && search[1] != ' '
    requires !IsPrefix(search, SpacedPlaceholder(key) + z)
    ensures ReplaceAll(SpacedPlaceholder(key) + z, search, value)
         == SpacedPlaceholder(key) + ReplaceAll(z, search, value)
  {
    var w := " " + key + " }}";
    SpacedTailNoBrace(key);
    assert SpacedPlaceholder(key) + z == "{" + ("{" + (w + z));
    assert SpacedPlaceholder(key) == "{{" + w;
    assert w[0] == ' ';
    ReplaceAllBracesThenPlain(w, z, search, value);
  }

  /**
   * A `{`-search string that does not match at `{{w...`, nor at `{w...`
   * (its second character is not `w`'s first), with `w` brace-free and
   * non-empty, copies the two braces and `w`.
   */
  lemma ReplaceAllBracesThenPlain(w: string, z: string, search: string, value: string)
    requires |search| >= 2 && search[0] == '{' && w != [] && search[1] != w[0]
    requires NoBrace(w)
    requires !IsPrefix(search, "{" + ("{" + (w + z)))
    ensures ReplaceAll("{" + ("{" + (w + z)), search, value) == "{{" + w + ReplaceAll(z, search, value)
  {
    var t := "{" + ("{" + (w + z));
    ReplaceAllMiss(t, search, value);
    assert t[1..] == "{" + (w + z);
    MissAt(search, t[1..], 1);
    ReplaceAllMiss(t[1..], search, value);
    assert t[1..][1..] == w + z;
    ReplaceAllSkip(w, z, search, value);
  }

  /** Text without `{` contains no placeholder of either form. */
  lemma ReplaceKeyNoBrace(x: string, key: string, value: string)
    requires NoBrace(x)
    ensures ReplaceKey(x, key, value) == x
  {
    ReplaceAllNoStart(x, SpacedPlaceholder(key), value);
    ReplaceAllNoStart(x, SingleBraced(key), value);
  }

  /** A spaced placeholder after brace-free text is replaced by a brace-free value. */
  lemma ReplaceKeyAtSpaced(x: string, key: string, y: string, value: string)
    requires NoBrace(x) && NoBrace(value)
    ensures ReplaceKey(x + SpacedPlaceholder(key) + y, key, value) == x + value + ReplaceKey(y, key, value)
  {
    var p := SpacedPlaceholder(key);
    var u := SingleBraced(key);
    assert x + p + y == x + (p + y);
    ReplaceAllSkip(x, p + y, p, value);
    ReplaceAllAtStart(y, p, value);
    var y' := ReplaceAll(y, p, value);
    assert ReplaceAll(x + p + y, p, value) == (x + value) + y';
    assert NoBrace(x + value);
    ReplaceAllSkip(x + value, y', u, value);
  }

  /** The spaced search string finds nothing in an unspaced placeholder followed by brace-free text. */
  lemma SpacedMissesUnspaced(key: string, y: string, value: string)
    requires IsIdentifier(key) && NoBrace(y)
    ensures ReplaceAll(UnspacedPlaceholder(key) + y, SpacedPlaceholder(key), value) == UnspacedPlaceholder(key) + y
  {
    var p := SpacedPlaceholder(key);
    var t := UnspacedPlaceholder(key) + y;
    var w := key + "}}" + y;
    assert NoBrace(w) by {
      assert forall i :: 0 <= i < |key| ==> w[i] == key[i];
    }
    assert t == "{" + ("{" + w);
    assert t[2] == key[0];
    MissAt(p, t, 2);
    ReplaceAllMiss(t, p, value);
    assert t[1..] == "{" + w;
    ReplaceAllMiss(t[1..], p, value);
    assert t[1..][1..] == w;
    ReplaceAllNoStart(w, p, value);
  }

  /** With the intended step, an unspaced placeholder after brace-free text is replaced by a brace-free value. */
  lemma ReplaceKeyIntendedAtUnspaced(x: string, key: string, y: string, value: string)
    requires IsIdentifier(key) && NoBrace(x) && NoBrace(value) && NoBrace(y)
    ensures ReplaceKeyIntended(x + UnspacedPlaceholder(key) + y, key, value) == x + value + y
  {
    var p := SpacedPlaceholder(key);
    var u := UnspacedPlaceholder(key);
    assert x + u + y == x + (u + y);
    ReplaceAllSkip(x, u + y, p, value);
    SpacedMissesUnspaced(key, y, value);
    ReplaceAllSkip(x, u + y, u, value);
    ReplaceAllAtStart(y, u, value);
    ReplaceAllNoStart(y, u, value);
  }

  /** Both search strings of a step open with `{` and no space after it. */
  lemma OpensWithBrace(key: string)
    requires IsIdentifier(key)
    ensures |SpacedPlaceholder(key)| >= 2 && SpacedPlaceholder(key)[0] == '{' && SpacedPlaceholder(key)[1] == '{'
    ensures |SingleBraced(key)| >= 2 && SingleBraced(key)[0] == '{' && SingleBraced(key)[1] != ' '
  {
    assert SingleBraced(key)[1] == key[0];
  }

  /** One pass of either search string for `key` leaves a placeholder for another name in place. */
  lemma ReplaceAllSkipsOtherKey(x: string, key: string, other: string, z: string, search: string, value: string)
    requires IsIdentifier(key) && IsIdentifier(other) && key != other && NoBrace(x)
    requires search == SpacedPlaceholder(key) || search == SingleBraced(key)
    ensures ReplaceAll(x + SpacedPlaceholder(other) + z, search, value)
         == x + SpacedPlaceholder(other) + ReplaceAll(z, search, value)
  {
    OpensWithBrace(key);
    if search == SpacedPlaceholder(key) {
      SpacedPlaceholdersDiffer(key, other, z);
    } else {
      SingleBracedNotSpaced(key, other, z);
    }
    ReplaceAllSkipsTextAndPlaceholder(x, other, z, search, value);
  }

  /** Brace-free text and a placeholder the `{`-search string misses are copied. */
  lemma ReplaceAllSkipsTextAndPlaceholder(x: string, other: string, z: string, search: string, value: string)
    requires IsIdentifier(other) && NoBrace(x)
    requires |search| >= 2 && search[0] == '{' && search[1] != ' '
    requires !IsPrefix(search, SpacedPlaceholder(other) + z)
    ensures ReplaceAll(x + SpacedPlaceholder(other) + z, search, value)
         == x + SpacedPlaceholder(other) + ReplaceAll(z, search, value)
  {
    var q := SpacedPlaceholder(other);
    assert x + q + z == x + (q + z);
    ReplaceAllSkip(x, q + z, search, value);
    ReplaceAllSkipsPlaceholder(other, z, search, value);
  }

  /** A placeholder for another name is left for that name. */
  lemma ReplaceKeySkipsOtherKey(x: string, key: string, other: string, z: string, value: string)
    requires IsIdentifier(key) && IsIdentifier(other) && key != other && NoBrace(x)
    ensures ReplaceKey(x + SpacedPlaceholder(other) + z, key, value)
         == x + SpacedPlaceholder(other) + ReplaceKey(z, key, value)
  {
    ReplaceAllSkipsOtherKey(x, key, other, z, SpacedPlaceholder(key), value);
    ReplaceAllSkipsOtherKey(x, key, other, ReplaceAll(z, SpacedPlaceholder(key), value), SingleBraced(key), value);
  }

  /** Substituting two variables is two steps of the loop. */
  lemma SubstituteTwo(markdown: string, k1: string, v1: string, k2: string, v2: string)
    ensures Substitute(markdown, [(k1, v1), (k2, v2)]) == ReplaceKey(ReplaceKey(markdown, k1, v1), k2, v2)
  {
    var vars := [(k1, v1), (k2, v2)];
    var once := ReplaceKey(markdown, k1, v1);
    assert vars[1..] == [(k2, v2)];
    assert [(k2, v2)][1..] == [];
    calc {
      Substitute(markdown, vars);
      Substitute(once, [(k2, v2)]);
      Substitute(ReplaceKey(once, k2, v2), []);
    }
  }

  /** The first key's step fills its placeholder and leaves the second key's placeholder alone. */
  lemma FirstOfTwo(x: string, k1: string, y: string, k2: string, z: string, v1: string)
    requires IsIdentifier(k1) && IsIdentifier(k2) && k1 != k2
    requires NoBrace(x) && NoBrace(y) && NoBrace(z) && NoBrace(v1)
    ensures ReplaceKey(x + SpacedPlaceholder(k1) + y + SpacedPlaceholder(k2) + z, k1, v1)
         == x + v1 + y + SpacedPlaceholder(k2) + z
  {
    var p1, p2 := SpacedPlaceholder(k1), SpacedPlaceholder(k2);
    assert x + p1 + y + p2 + z == x + p1 + (y + p2 + z);
    ReplaceKeyAtSpaced(x, k1, y + p2 + z, v1);
    ReplaceKeySkipsOtherKey(y, k1, k2, z, v1);
    ReplaceKeyNoBrace(z, k1, v1);
  }

  /** The second key's step fills the one placeholder left. */
  lemma SecondOfTwo(w: string, k2: string, z: string, v2: string)
    requires NoBrace(w) && NoBrace(z) && NoBrace(v2)
    ensures ReplaceKey(w + SpacedPlaceholder(k2) + z, k2, v2) == w + v2 + z
  {
    ReplaceKeyAtSpaced(w, k2, z, v2);
    ReplaceKeyNoBrace(z, k2, v2);
  }

  /**
   * Both placeholders of a two-variable text are replaced, each by its own
   * value, when the surrounding text and the values have no braces.
   */
  lemma SubstituteTwoPlaceholders(x: string, k1: string, y: string, k2: string, z: string, v1: string, v2: string)
    requires IsIdentifier(k1) && IsIdentifier(k2) && k1 != k2
    requires NoBrace(x) && NoBrace(y) && NoBrace(z) && NoBrace(v1) && NoBrace(v2)
    ensures Substitute(x + SpacedPlaceholder(k1) + y + SpacedPlaceholder(k2) + z, [(k1, v1), (k2, v2)])
         == x + v1 + y + v2 + z
  {
    var s := x + SpacedPlaceholder(k1) + y + SpacedPlaceholder(k2) + z;
    var w := x + v1 + y;
    FirstOfTwo(x, k1, y, k2, z, v1);
    assert x + v1 + y + SpacedPlaceholder(k2) + z == w + SpacedPlaceholder(k2) + z;
    assert NoBrace(w);
    SecondOfTwo(w, k2, z, v2);
    assert w + v2 + z == x + v1 + y + v2 + z;
    SubstituteTwo(s, k1, v1, k2, v2);
  }

  /** The spaced placeholder alone is replaced by any value. */
  lemma ReplaceAllWholePlaceholder(p: string, value: string)
    requires |p| > 0
    ensures ReplaceAll(p, p, value) == value
  {
    ReplaceAllAtStart([], p, value);
    assert p + [] == p && value + [] == value;
  }

  /**
   * Expansion follows map order: a value inserted for an earlier key that
   * holds a later key's placeholder is expanded by the later key, and not
   * when the keys come the other way round.
   */
  lemma SubstituteInMapOrder(k1: string, k2: string, v2: string)
    requires IsIdentifier(k1) && IsIdentifier(k2) && k1 != k2 && NoBrace(v2)
    ensures Substitute(SpacedPlaceholder(k1), [(k1, SpacedPlaceholder(k2)), (k2, v2)]) == v2
    ensures Substitute(SpacedPlaceholder(k1), [(k2, v2), (k1, SpacedPlaceholder(k2))]) == SpacedPlaceholder(k2)
  {
    var p1, p2 := SpacedPlaceholder(k1), SpacedPlaceholder(k2);
    // Forward order: k1 yields p2, which k2 then expands.
    assert ReplaceKey(p1, k1, p2) == p2 by {
      ReplaceAllWholePlaceholder(p1, p2);
      assert p2 == [] + p2 + [];
      ReplaceAllSkipsOtherKey([], k1, k2, [], SingleBraced(k1), p2);
    }
    assert ReplaceKey(p2, k2, v2) == v2 by {
      assert p2 == [] + p2 + [];
      ReplaceKeyAtSpaced([], k2, [], v2);
      assert [] + v2 + [] == v2;
    }
    SubstituteTwo(p1, k1, p2, k2, v2);
    // Reverse order: k2 finds nothing yet, then k1 yields p2 for good.
    assert ReplaceKey(p1, k2, v2) == p1 by {
      assert p1 == [] + p1 + [];
      ReplaceKeySkipsOtherKey([], k2, k1, [], v2);
    }
    SubstituteTwo(p1, k2, v2, k1, p2);
  }

  /** The unspaced form is replaced by the intended search string. */
  lemma ReplaceKeyIntendedUnspaced(key: string, value: string)
    requires IsIdentifier(key) && NoBrace(value)
    ensures ReplaceKeyIntended(UnspacedPlaceholder(key), key, value) == value
  {
    ReplaceKeyIntendedAtUnspaced([], key, [], value);
    assert [] + UnspacedPlaceholder(key) + [] == UnspacedPlaceholder(key);
    assert [] + value + [] == value;
  }

  /**
   * As written, the unspaced placeholder `{{key}}` is not replaced: only its
   * inner `{key}` is, leaving the value wrapped in braces. Any `{key}` in the
   * text is replaced too.
   */
  lemma ReplaceKeyKeepsBraces(key: string, value: string)
    requires IsIdentifier(key) && NoBrace(value)
    ensures ReplaceKey(UnspacedPlaceholder(key), key, value) == "{" + value + "}"
    ensures ReplaceKey(SingleBraced(key), key, value) == value
  {
    var p := SpacedPlaceholder(key);
    var a := SingleBraced(key);
    var u := UnspacedPlaceholder(key);
    // `{{key}}`: the spaced search misses at both braces.
    var w := key + "}}";
    assert NoBrace(w) by {
      assert forall i :: 0 <= i < |key| ==> w[i] == key[i];
    }
    assert u == "{" + ("{" + w);
    ReplaceAllMiss(u, p, value);
    assert u[1..] == "{" + w;
    ReplaceAllMiss(u[1..], p, value);
    assert u[1..][1..] == w;
    ReplaceAllNoStart(w, p, value);
    assert ReplaceAll(u, p, value) == u;
    // The `{key}` search then hits right after the first brace.
    assert u == "{" + a + "}";
    assert forall i :: 0 <= i < |"{"| ==> !IsPrefix(a, ("{" + a + "}")[i..]) by {
      assert ("{" + a + "}")[0..] == u;
      assert u[..|a|][1] == '{';
      assert a[1] == key[0];
    }
    ReplaceAllFirstOccurrence("{", a, "}", value);
    ReplaceAllNoStart("}", a, value);
    // `{key}` alone: the spaced search cannot match (too short or wrong second character).
    var v := key + "}";
    assert NoBrace(v) by {
      assert forall i :: 0 <= i < |key| ==> v[i] == key[i];
    }
    assert a == "{" + v;
    ReplaceAllMiss(a, p, value);
    assert a[1..] == v;
    ReplaceAllNoStart(v, p, value);
    assert ReplaceAll(a, p, value) == a;
    assert a == [] + a + [];
    ReplaceAllAtStart([], a, value);
    assert a + [] == a && value + [] == value;
  }

  /** Substituting one variable is one step of the loop. */
  lemma SubstituteOne(markdown: string, key: string, value: string)
    ensures Substitute(markdown, [(key, value)]) == ReplaceKey(markdown, key, value)
    ensures SubstituteIntended(markdown, [(key, value)]) == ReplaceKeyIntended(markdown, key, value)
  {
    assert [(key, value)][1..] == [];
  }

  /**
   * The loop as written turns `{{key}}` into the value wrapped in single
   * braces, and also fills a single-braced `{key}`.
   */
  lemma SubstituteKeepsBraces(key: string, value: string)
    requires IsIdentifier(key) && NoBrace(value)
    ensures Substitute(UnspacedPlaceholder(key), [(key, value)]) == "{" + value + "}"
    ensures Substitute(SingleBraced(key), [(key, value)]) == value
  {
    SubstituteOne(UnspacedPlaceholder(key), key, value);
    SubstituteOne(SingleBraced(key), key, value);
    ReplaceKeyKeepsBraces(key, value);
  }

  /** The loop with the intended search string turns `{{key}}` into exactly the value. */
  lemma SubstituteIntendedUnspaced(key: string, value: string)
    requires IsIdentifier(key) && NoBrace(value)
    ensures SubstituteIntended(UnspacedPlaceholder(key), [(key, value)]) == value
  {
    SubstituteOne(UnspacedPlaceholder(key), key, value);
    ReplaceKeyIntendedUnspaced(key, value);
  }

  /** A search string opening with `{{` finds nothing in the single-braced `{key}`. */
  lemma SingleBracedMissed(key: string, search: string, value: string)
    requires IsIdentifier(key)
    requires |search| >= 2 && search[0] == '{' && search[1] == '{'
    ensures ReplaceAll(SingleBraced(key), search, value) == SingleBraced(key)
  {
    var a := SingleBraced(key);
    var v := key + "}";
    assert NoBrace(v) by {
      assert forall i :: 0 <= i < |key| ==> v[i] == key[i];
    }
    assert a == "{" + v;
    assert a[1] == key[0];
    MissAt(search, a, 1);
    ReplaceAllMiss(a, search, value);
    assert a[1..] == v;
    ReplaceAllNoStart(v, search, value);
  }

  /** The loop with the intended search string leaves a single-braced `{key}` as it is. */
  lemma SubstituteIntendedKeepsSingleBraced(key: string, value: string)
    requires IsIdentifier(key)
    ensures SubstituteIntended(SingleBraced(key), [(key, value)]) == SingleBraced(key)
  {
    SubstituteOne(SingleBraced(key), key, value);
    OpensWithBrace(key);
    SingleBracedMissed(key, SpacedPlaceholder(key), value);
    assert UnspacedPlaceholder(key)[0] == '{' && UnspacedPlaceholder(key)[1] == '{';
    SingleBracedMissed(key, UnspacedPlaceholder(key), value);
  }

  // ---------------------------------------------------------------------
  // The HTML tag filter's allow-string
  // ---------------------------------------------------------------------

  /** The allow-string `<t1><t2>...<tn>` handed to the tag stripper. */
  function AllowString(tags: seq<string>): string {
    "<" + Implode("><", tags) + ">"
  }

  /** `<t1><t2>...`, each tag in its own brackets (no brackets for no tags). */
  function Bracketed(tags: seq<string>): string
    decreases |tags|
  {
    if tags == [] then "" else "<" + tags[0] + ">" + Bracketed(tags[1..])
  }

  /** No angle bracket in `s`. */
  predicate NoAngles(s: string) {
    '<' !in s && '>' !in s
  }

  /** The names, lower-cased. */
  function LowerAll(tags: seq<string>): (r: seq<string>)
    ensures |r| == |tags| && forall i :: 0 <= i < |tags| ==> r[i] == ToLower(tags[i])
    decreases |tags|
  {
    if tags == [] then [] else [ToLower(tags[0])] + LowerAll(tags[1..])
  }

  /** For a non-empty list, the implode form is each tag in its own brackets. */
  lemma {:induction false} AllowStringBracketed(tags: seq<string>)
    requires tags != []
    ensures AllowString(tags) == Bracketed(tags)
    decreases |tags|
  {
    if |tags| == 1 {
      assert tags[1..] == [];
      assert Implode("><", tags) == tags[0];
    } else {
      AllowStringBracketed(tags[1..]);
      assert AllowString(tags) == "<" + tags[0] + ">" + ("<" + Implode("><", tags[1..]) + ">");
    }
  }

  /** The allow-string for `p` and `strong`. */
  lemma AllowStringExample()
    ensures AllowString(["p", "strong"]) == "<p><strong>"
  {
    var tags := ["p", "strong"];
    assert tags[1..] == ["strong"];
    assert Implode("><", tags) == "p" + "><" + "strong";
  }

  /** Lower-casing distributes over concatenation. */
  lemma ToLowerConcat(a: string, b: string)
    ensures ToLower(a + b) == ToLower(a) + ToLower(b)
  {
  }

  /** Lower-casing the bracketed list brackets the lower-cased names. */
  lemma {:induction false} ToLowerBracketed(tags: seq<string>)
    ensures ToLower(Bracketed(tags)) == Bracketed(LowerAll(tags))
    decreases |tags|
  {
    if tags != [] {
      ToLowerBracketed(tags[1..]);
      ToLowerConcat("<" + tags[0] + ">", Bracketed(tags[1..]));
      ToLowerConcat("<" + tags[0], ">");
      ToLowerConcat("<", tags[0]);
      assert ToLower("<") == "<" && ToLower(">") == ">";
      assert LowerAll(tags)[1..] == LowerAll(tags[1..]);
    }
  }

  /** An occurrence of `w` cannot start where `w`'s first character is absent. */
  lemma {:induction false} ContainsSkip(a: string, b: string, w: string)
    requires |w| > 0 && w[0] !in a
    ensures Contains(a + b, w) <==> Contains(b, w)
    decreases |a|
  {
    if a == [] {
      assert a + b == b;
    } else {
      assert (a + b)[1..] == a[1..] + b;
      if |w| <= |a + b| {
        assert (a + b)[..|w|][0] == a[0];
      }
      ContainsSkip(a[1..], b, w);
    }
  }

  /** `<n>` is a prefix of `<t>...` exactly when the bracket-free names agree. */
  lemma BracketPrefix(n: string, t: string, rest: string)
    requires NoAngles(n) && NoAngles(t)
    ensures IsPrefix("<" + n + ">", "<" + t + ">" + rest) <==> n == t
  {
    var w := "<" + n + ">";
    var s := "<" + t + ">" + rest;
    assert forall i :: 0 <= i < |n| ==> w[1 + i] == n[i];
    assert forall i :: 0 <= i < |t| ==> s[1 + i] == t[i];
    if n == t {
      assert s[..|w|] == w;
    } else if |n| < |t| {
      MissAt(w, s, 1 + |n|);
    } else if |n| > |t| {
      MissAt(w, s, 1 + |t|);
    } else {
      var i :| 0 <= i < |n| && n[i] != t[i];
      MissAt(w, s, 1 + i);
    }
  }

  /** `<n>` occurs in the bracketed list exactly when `n` is one of its names. */
  lemma {:induction false} ContainsBracketed(tags: seq<string>, n: string)
    requires forall i :: 0 <= i < |tags| ==> NoAngles(tags[i])
    requires NoAngles(n)
    ensures Contains(Bracketed(tags), "<" + n + ">") <==> n in tags
    decreases |tags|
  {
    var w := "<" + n + ">";
    if tags == [] {
      assert !IsPrefix(w, "");
    } else {
      var t := tags[0];
      var rest := Bracketed(tags[1..]);
      ContainsBracketed(tags[1..], n);
      BracketPrefix(n, t, rest);
      var s := "<" + t + ">" + rest;
      assert s[1..] == (t + ">") + rest;
      ContainsSkip(t + ">", rest, w);
      assert n in tags <==> n == t || n in tags[1..];
    }
  }

  /** Lower-casing keeps a name free of angle brackets. */
  lemma LowerNameNoAngles(name: string)
    requires forall i :: 0 <= i < |name| ==> name[i] != '<' && name[i] != '>'
    ensures NoAngles(ToLower(name))
  {
    var n := ToLower(name);
    forall i | 0 <= i < |n|
      ensures n[i] != '<' && n[i] != '>'
    {
      assert n[i] == LowerChar(name[i]);
    }
  }

  /** The allow-string of an empty list, `<>`, admits only the empty name. */
  lemma ContainsEmptyAllow(n: string)
    ensures Contains("<>", "<" + n + ">") <==> n == ""
  {
    var w := "<" + n + ">";
    assert "<>"[1..] == ">" && ">"[1..] == "";
    assert !IsPrefix(w, ">") && !IsPrefix(w, "");
    if n == "" {
      assert w == "<>";
    } else {
      assert |w| > 2;
    }
  }

  /**
   * Under the tag stripper's rule, a tag survives exactly when its
   * lower-cased name is one of the lower-cased configured names (or, for an
   * empty list, when its name is empty: the allow-string is then `<>`).
   */
  lemma AllowedIffListed(tags: seq<string>, raw: string)
    requires forall i :: 0 <= i < |tags| ==> NoAngles(tags[i])
    ensures TagScanner.Allowed(raw, AllowString(tags))
        <==> ToLower(TagScanner.TagName(raw)) in LowerAll(tags) || (tags == [] && TagScanner.TagName(raw) == "")
  {
    var name := TagScanner.TagName(raw);
    LowerNameNoAngles(name);
    AllowStringAdmits(tags, ToLower(name));
    assert ToLower(name) == "" <==> name == "";
  }

  /** `<n>` occurs in the lower-cased allow-string exactly when `n` is a listed name, lower-cased. */
  lemma AllowStringAdmits(tags: seq<string>, n: string)
    requires forall i :: 0 <= i < |tags| ==> NoAngles(tags[i])
    requires NoAngles(n)
    ensures Contains(ToLower(AllowString(tags)), "<" + n + ">") <==> n in LowerAll(tags) || (tags == [] && n == "")
  {
    if tags == [] {
      assert ToLower(AllowString(tags)) == "<>";
      ContainsEmptyAllow(n);
    } else {
      AllowStringBracketed(tags);
      ToLowerBracketed(tags);
      forall i | 0 <= i < |tags|
        ensures NoAngles(LowerAll(tags)[i])
      {
        LowerNameNoAngles(tags[i]);
      }
      ContainsBracketed(LowerAll(tags), n);
    }
  }

  // ---------------------------------------------------------------------
  // Subject sanitising
  // ---------------------------------------------------------------------

  /** `str_replace(["\r", "\n", "\t"], '', s)` deletes exactly those characters. */
  lemma HeaderBreaksDeleted(s: string)
    ensures ReplaceAll(ReplaceAll(ReplaceAll(s, "\r", ""), "\n", ""), "\t", "") == WithoutChars(s, HeaderBreakChars)
  {
    ReplaceCharByEmpty(s, '\r');
    ReplaceCharByEmpty(WithoutChars(s, {'\r'}), '\n');
    WithoutCharsThen(s, {'\r'}, {'\n'});
    ReplaceCharByEmpty(WithoutChars(s, {'\r', '\n'}), '\t');
    WithoutCharsThen(s, {'\r', '\n'}, {'\t'});
    assert {'\r'} + {'\n'} == {'\r', '\n'};
    assert {'\r', '\n'} + {'\t'} == HeaderBreakChars;
  }

  /** Deleting characters distributes over concatenation. */
  lemma {:induction false} WithoutCharsConcat(a: string, b: string, cs: set<char>)
    ensures WithoutChars(a + b, cs) == WithoutChars(a, cs) + WithoutChars(b, cs)
    decreases |a|
  {
    if a == [] {
      assert a + b == b;
    } else {
      assert (a + b)[1..] == a[1..] + b;
      WithoutCharsConcat(a[1..], b, cs);
    }
  }

  // ---------------------------------------------------------------------
  // The renderer
  // ---------------------------------------------------------------------

  /** The renderer: configuration and converter are fixed at construction. */
  class MarkdownEmailRenderer {
    const config: Config
    const converterOptions: ConverterOptions
    const converter: Converter

    /** Keeps the configuration and builds the converter environment from it. */
    constructor (config: Config, converter: Converter)
      ensures this.config == config && this.converter == converter
      ensures converterOptions == ConverterSetup(config)
    {
      this.config := config;
      this.converterOptions := ConverterSetup(config);
      this.converter := converter;
    }

    /** The substitution loop: every variable in map order, spaced form first. */
    method ReplaceVariables(markdown: string, variables: Variables) returns (r: string)
      ensures r == Substitute(markdown, variables)
      ensures variables == [] ==> r == markdown
    {
      r := markdown;
      for i := 0 to |variables|
        invariant Substitute(r, variables[i..]) == Substitute(markdown, variables)
      {
        assert variables[i..][1..] == variables[i + 1..];
        var (key, value) := variables[i];
        r := ReplaceAll(r, SpacedPlaceholder(key), value);
        r := ReplaceAll(r, SingleBraced(key), value);
      }
      assert variables[|variables|..] == [];
    }

    /** The configured tags joined into the allow-string, then handed to the tag stripper. */
    function SanitizeHtml(html: string): (r: string)
      ensures TagScanner.Scan(r) == TagScanner.KeepAllowed(TagScanner.Scan(html), AllowString(config.allowedHtmlTags))
      ensures TagScanner.StripTags(r, AllowString(config.allowedHtmlTags)) == r
      ensures TagScanner.Texts(TagScanner.Scan(r)) == TagScanner.Texts(TagScanner.Scan(html))
    {
      var allow := AllowString(config.allowedHtmlTags);
      TagScanner.StripTagsIdempotent(html, allow);
      TagScanner.StripTagsKeepsText(html, allow);
      TagScanner.StripTags(html, allow)
    }

    /** The view: the one asked for, or the configured base view. */
    function ViewName(template: Option<string>): (name: string)
      ensures template.Some? ==> name == template.value
      ensures template.None? ==> name == config.template.baseView
    {
      template.GetOr(config.template.baseView)
    }

    /**
     * The parameters handed to the view: the converted markdown (filtered
     * only when content sanitising is on), the template settings, the links
     * and the variables; or the converter's exception message.
     */
    function ViewData(markdown: string, variables: Variables): (r: Result<TemplateParameters, string>)
      ensures r.Failure? <==> converter(converterOptions, Substitute(markdown, variables)).Failure?
      ensures r.Failure? ==> r.error == converter(converterOptions, Substitute(markdown, variables)).error
      ensures r.Success? && !config.sanitizeContent ==>
                r.value.content == converter(converterOptions, Substitute(markdown, variables)).value
      ensures r.Success? && config.sanitizeContent ==>
                r.value.content == SanitizeHtml(converter(converterOptions, Substitute(markdown, variables)).value)
      ensures r.Success? ==>
                && r.value.businessName == config.template.businessName
                && r.value.logoUrl == config.template.logoUrl
                && r.value.logoWidth == config.template.logoWidth
                && r.value.logoHeight == config.template.logoHeight
                && r.value.links == config.links
                && r.value.variables == variables
    {
      match converter(converterOptions, Substitute(markdown, variables))
      case Failure(e) => Failure(e)
      case Success(html) =>
        var content := if config.sanitizeContent then SanitizeHtml(html) else html;
        Success(TemplateParameters(
          content,
          config.template.businessName,
          config.template.logoUrl,
          config.template.logoWidth,
          config.template.logoHeight,
          config.links,
          variables))
    }

    /**
     * Renders the email document. Every failure of the converter or the view
     * comes back as one error whose message is the fixed prefix followed by
     * the original message.
     */
    function Render(markdown: string, variables: Variables, template: Option<string>, view: ViewRenderer): (r: Result<string, string>)
      ensures r.Failure? ==> IsPrefix(RenderErrorPrefix, r.error)
      ensures ViewData(markdown, variables).Failure? ==>
                r == Failure(RenderErrorPrefix + ViewData(markdown, variables).error)
      ensures ViewData(markdown, variables).Success? ==>
                var out := view(ViewName(template), ViewData(markdown, variables).value);
                && (r.Success? <==> out.Success?)
                && (r.Success? ==> r.value == out.value)
                && (r.Failure? ==> r.error == RenderErrorPrefix + out.error)
    {
      var wrapped :=
        match ViewData(markdown, variables)
        case Failure(e) => Failure(e)
        case Success(parameters) => view(ViewName(template), parameters);
      match wrapped
      case Success(document) => Success(document)
      case Failure(e) =>
        assert (RenderErrorPrefix + e)[..|RenderErrorPrefix|] == RenderErrorPrefix;
        Failure(RenderErrorPrefix + e)
    }

    /**
     * Header-injection characters deleted, then the length limit applied:
     * the cleaned subject itself when it has at most 255 characters, else a
     * right-trimmed prefix of it followed by "...".
     */
    function SanitizeSubject(subject: string): (r: string)
      ensures forall i :: 0 <= i < |r| ==> r[i] !in HeaderBreakChars
      ensures |WithoutChars(subject, HeaderBreakChars)| <= SubjectLimit ==>
                r == WithoutChars(subject, HeaderBreakChars)
      ensures |WithoutChars(subject, HeaderBreakChars)| > SubjectLimit ==>
                && |LimitEnd| <= |r| <= SubjectLimit + |LimitEnd|
                && IsPrefix(r[..|r| - |LimitEnd|], WithoutChars(subject, HeaderBreakChars))
                && r[|r| - |LimitEnd|..] == LimitEnd
    {
      var cleaned := ReplaceAll(ReplaceAll(ReplaceAll(subject, "\r", ""), "\n", ""), "\t", "");
      HeaderBreaksDeleted(subject);
      var r := Limit(cleaned, SubjectLimit, LimitEnd);
      assert forall i :: 0 <= i < |r| ==> r[i] !in HeaderBreakChars by {
        if |cleaned| > SubjectLimit {
          var k := |r| - |LimitEnd|;
          forall i | 0 <= i < |r|
            ensures r[i] !in HeaderBreakChars
          {
            if i < k {
              assert r[i] == r[..k][i] == cleaned[i];
            } else {
              assert r[i] == LimitEnd[i - k];
            }
          }
        }
      }
      r
    }

    /**
     * Renders the email and builds its draft record: sanitised subject, the
     * markdown as given (before substitution), the rendered document, the
     * template name or "base-template", status "draft". The record is saved
     * exactly when email storage is on. A render failure is passed on.
     */
    function Create(subject: string, markdown: string, recipients: seq<string>, variables: Variables,
                    template: Option<string>, view: ViewRenderer): (r: Result<NewEmail, string>)
      ensures r.Failure? <==> Render(markdown, variables, template, view).Failure?
      ensures r.Failure? ==> r.error == Render(markdown, variables, template, view).error
                             && IsPrefix(RenderErrorPrefix, r.error)
      ensures r.Success? ==>
                var a := r.value.attributes;
                && a.subject == SanitizeSubject(subject)
                && a.markdownContent == markdown
                && a.htmlContent == Render(markdown, variables, template, view).value
                && a.recipients == recipients
                && a.variables == variables
                && a.templateUsed == (if template.Some? then template.value else DefaultTemplateUsed)
                && a.status == Email.StatusDraft
                && a.errorMessage == None && a.sentAt == None
      ensures r.Success? ==> r.value.stored == config.storeEmails
    {
      match Render(markdown, variables, template, view)
      case Failure(e) => Failure(e)
      case Success(htmlContent) =>
        var attributes := Email.Attributes(
          SanitizeSubject(subject),
          markdown,
          htmlContent,
          recipients,
          variables,
          template.GetOr(DefaultTemplateUsed),
          Email.StatusDraft,
          None,
          None);
        Success(NewEmail(attributes, config.storeEmails))
    }

    /**
     * With bracket-free configured names, every tag left by the filter has a
     * configured name, compared case-insensitively (for an empty list, only a
     * nameless tag matches the `<>` allow-string), and the tags left are
     * exactly the input's allowed ones, in order.
     */
    lemma SanitizedTagsListed(html: string)
      requires forall i :: 0 <= i < |config.allowedHtmlTags| ==> NoAngles(config.allowedHtmlTags[i])
      ensures forall t :: t in TagScanner.Tags(TagScanner.Scan(SanitizeHtml(html))) ==>
                || ToLower(TagScanner.TagName(t)) in LowerAll(config.allowedHtmlTags)
                || (config.allowedHtmlTags == [] && TagScanner.TagName(t) == "")
      ensures TagScanner.Tags(TagScanner.Scan(SanitizeHtml(html)))
           == TagScanner.AllowedTags(TagScanner.Tags(TagScanner.Scan(html)), AllowString(config.allowedHtmlTags))
    {
      var allow := AllowString(config.allowedHtmlTags);
      TagScanner.StripTagsOnlyAllowed(html, allow);
      TagScanner.StripTagsKeepsAllowedTags(html, allow);
      forall t | t in TagScanner.Tags(TagScanner.Scan(SanitizeHtml(html)))
        ensures || ToLower(TagScanner.TagName(t)) in LowerAll(config.allowedHtmlTags)
                || (config.allowedHtmlTags == [] && TagScanner.TagName(t) == "")
      {
        AllowedIffListed(config.allowedHtmlTags, t);
      }
    }

  }
}
