/**
 * A tag scanner standing in for PHP's `strip_tags(html, allow)`.
 *
 * A `<` opens a tag that runs to the first following `>`; a `<` with no `>`
 * after it opens an unterminated tag that swallows the rest of the input.
 * Everything else is text. `StripTags` keeps the text, keeps a tag exactly
 * when `<name>` (lower-cased) occurs in the lower-cased allow-string, and drops
 * every other tag together with an unterminated tail.
 */
module TagScanner {
  import opened Wrappers
  import opened Strings

  datatype Token =
    | Text(c: char)       // one character outside any tag
    | Tag(raw: string)    // from a `<` up to and including the first `>` after it
    | Open(raw: string)   // an unterminated `<` and everything after it

  /** No `>` in `s`. */
  predicate NoClose(s: string) {
    forall i :: 0 <= i < |s| ==> s[i] != '>'
  }

  /** The index of the first `>` at or after `from`, if any. */
  function FindClose(s: string, from: nat): (r: Option<nat>)
    requires from <= |s|
    ensures r.Some? ==> from <= r.value < |s| && s[r.value] == '>'
    decreases |s| - from
  {
    if from == |s| then None
    else if s[from] == '>' then Some(from)
    else FindClose(s, from + 1)
  }

  /** The `>` found is the first one, and none is found only when there is none. */
  lemma {:induction false} FindCloseFirst(s: string, from: nat)
    requires from <= |s|
    ensures FindClose(s, from).Some? ==> forall k :: from <= k < FindClose(s, from).value ==> s[k] != '>'
    ensures FindClose(s, from).None? ==> forall k :: from <= k < |s| ==> s[k] != '>'
    decreases |s| - from
  {
    if from < |s| && s[from] != '>' {
      FindCloseFirst(s, from + 1);
    }
  }

  /** A `>` with none before it, from `from` on, is the one found. */
  lemma {:induction false} FindCloseAt(s: string, from: nat, j: nat)
    requires from <= j < |s| && s[j] == '>'
    requires forall k :: from <= k < j ==> s[k] != '>'
    ensures FindClose(s, from) == Some(j)
    decreases j - from
  {
    if from < j {
      FindCloseAt(s, from + 1, j);
    }
  }

  /** With no `>` from `from` on, none is found. */
  lemma {:induction false} FindCloseAbsent(s: string, from: nat)
    requires from <= |s|
    requires forall k :: from <= k < |s| ==> s[k] != '>'
    ensures FindClose(s, from) == None
    decreases |s| - from
  {
    if from < |s| {
      FindCloseAbsent(s, from + 1);
    }
  }

  /** Splits `s` into text characters, complete tags and at most one unterminated tail. */
  function Scan(s: string): seq<Token>
    decreases |s|, 1
  {
    if s == [] then []
    else if s[0] != '<' then [Text(s[0])] + Scan(s[1..])
    else ScanTag(s, FindClose(s, 1))
  }

  /** The tokens of `s`, which starts with `<`, given the position of its first `>`. */
  function ScanTag(s: string, close: Option<nat>): seq<Token>
    requires close.Some? ==> close.value < |s|
    decreases |s|, 0
  {
    match close
    case None => [Open(s)]
    case Some(j) => [Tag(s[..j + 1])] + Scan(s[j + 1..])
  }

  /** The characters a token stands for. */
  function Spell(t: Token): string {
    match t
    case Text(c) => [c]
    case Tag(raw) => raw
    case Open(raw) => raw
  }

  /** The string a token sequence stands for. */
  function Flatten(ts: seq<Token>): string
    decreases |ts|
  {
    if ts == [] then "" else Spell(ts[0]) + Flatten(ts[1..])
  }

  /** A token `Scan` can produce. */
  predicate WellFormedToken(t: Token) {
    match t
    case Text(c) => c != '<'
    case Tag(raw) => |raw| >= 2 && raw[0] == '<' && raw[|raw| - 1] == '>' && NoClose(raw[1..|raw| - 1])
    case Open(raw) => |raw| >= 1 && raw[0] == '<' && NoClose(raw)
  }

  /** A token sequence `Scan` can produce: well-formed tokens, an unterminated tail only at the end. */
  predicate WellFormed(ts: seq<Token>) {
    && (forall i :: 0 <= i < |ts| ==> WellFormedToken(ts[i]))
    && (forall i :: 0 <= i < |ts| - 1 ==> !ts[i].Open?)
  }

  /** Flattening distributes over a leading token. */
  lemma FlattenCons(t: Token, ts: seq<Token>)
    ensures Flatten([t] + ts) == Spell(t) + Flatten(ts)
  {
    assert ([t] + ts)[1..] == ts;
  }

  /** Cutting a string in two and joining the halves gives it back. */
  lemma SplitJoin(s: string, k: nat)
    requires k <= |s|
    ensures s[..k] + s[k..] == s
  {
  }

  /** A text character scans as itself, then the rest. */
  lemma ScanTextStep(s: string)
    requires s != [] && s[0] != '<'
    ensures Scan(s) == [Text(s[0])] + Scan(s[1..])
  {
  }

  /** A text character followed by a spelled-out rest spells the input. */
  lemma FlattenScanText(s: string)
    requires s != [] && s[0] != '<' && Flatten(Scan(s[1..])) == s[1..]
    ensures Flatten(Scan(s)) == s
  {
    FlattenCons(Text(s[0]), Scan(s[1..]));
    assert s == [s[0]] + s[1..];
  }

  /** A `<` with a closing `>` at `j` scans as that tag, then the rest. */
  lemma ScanTagStep(s: string, j: nat)
    requires s != [] && s[0] == '<' && FindClose(s, 1) == Some(j)
    ensures j < |s| && Scan(s) == [Tag(s[..j + 1])] + Scan(s[j + 1..])
  {
  }

  /** A `<` with no `>` after it scans as one unterminated tag. */
  lemma ScanOpenStep(s: string)
    requires s != [] && s[0] == '<' && FindClose(s, 1) == None
    ensures Scan(s) == [Open(s)]
  {
  }

  /** The spelling of a scan that starts with a complete tag. */
  lemma FlattenScanTagStep(s: string, j: nat)
    requires s != [] && s[0] == '<' && FindClose(s, 1) == Some(j)
    ensures j < |s| && Flatten(Scan(s)) == s[..j + 1] + Flatten(Scan(s[j + 1..]))
  {
    ScanTagStep(s, j);
    FlattenCons(Tag(s[..j + 1]), Scan(s[j + 1..]));
  }

  /** A complete tag followed by a spelled-out rest spells the input. */
  lemma FlattenScanTag(s: string, j: nat)
    requires s != [] && s[0] == '<' && FindClose(s, 1) == Some(j)
    requires Flatten(Scan(s[j + 1..])) == s[j + 1..]
    ensures Flatten(Scan(s)) == s
  {
    FlattenScanTagStep(s, j);
    SplitJoin(s, j + 1);
  }

  /** An unterminated tag spells the whole input. */
  lemma FlattenScanOpen(s: string)
    requires s != [] && s[0] == '<' && FindClose(s, 1) == None
    ensures Flatten(Scan(s)) == s
  {
    ScanOpenStep(s);
    FlattenCons(Open(s), []);
    assert s + "" == s;
  }

  /** Scanning loses nothing: the tokens spell the input. */
  lemma {:induction false} FlattenScan(s: string)
    ensures Flatten(Scan(s)) == s
    decreases |s|
  {
    if s == [] {
    } else if s[0] != '<' {
      FlattenScan(s[1..]);
      FlattenScanText(s);
    } else if FindClose(s, 1).Some? {
      var j := FindClose(s, 1).value;
      FlattenScan(s[j + 1..]);
      FlattenScanTag(s, j);
    } else {
      FlattenScanOpen(s);
    }
  }

  /** Every token sequence `Scan` produces is well-formed. */
  lemma {:induction false} ScanWellFormed(s: string)
    ensures WellFormed(Scan(s))
    decreases |s|
  {
    if s == [] {
    } else if s[0] != '<' {
      ScanWellFormed(s[1..]);
    } else {
      FindCloseFirst(s, 1);
      match FindClose(s, 1)
      case None =>
        ScanOpenStep(s);
      case Some(j) =>
        ScanTagStep(s, j);
        ScanWellFormed(s[j + 1..]);
        var raw := s[..j + 1];
        assert raw[1..|raw| - 1] == s[1..j];
    }
  }

  /** The tail of a well-formed sequence is well-formed. */
  lemma WellFormedTail(ts: seq<Token>)
    requires WellFormed(ts) && ts != []
    ensures WellFormed(ts[1..])
  {
    forall i | 0 <= i < |ts| - 2
      ensures !ts[1..][i].Open?
    {
      assert ts[1..][i] == ts[i + 1];
    }
  }

  /** After `<` and a `>`-free body, the first `>` is the one that closes the tag. */
  lemma FindCloseOfTag(raw: string, w: string)
    requires WellFormedToken(Tag(raw))
    ensures FindClose(raw + w, 1) == Some(|raw| - 1)
  {
    var s := raw + w;
    assert s[|raw| - 1] == '>';
    assert forall k :: 1 <= k < |raw| - 1 ==> s[k] == raw[1..|raw| - 1][k - 1];
    FindCloseAt(s, 1, |raw| - 1);
  }

  /** Rescanning a text character in front of a rescannable rest. */
  lemma ScanFlattenText(c: char, ts: seq<Token>)
    requires c != '<' && Scan(Flatten(ts)) == ts
    ensures Scan(Flatten([Text(c)] + ts)) == [Text(c)] + ts
  {
    FlattenCons(Text(c), ts);
    var s := [c] + Flatten(ts);
    assert s[1..] == Flatten(ts);
    ScanTextStep(s);
  }

  /** Rescanning a complete tag in front of a rescannable rest. */
  lemma ScanFlattenTag(raw: string, ts: seq<Token>)
    requires WellFormedToken(Tag(raw)) && Scan(Flatten(ts)) == ts
    ensures Scan(Flatten([Tag(raw)] + ts)) == [Tag(raw)] + ts
  {
    FlattenCons(Tag(raw), ts);
    var rest := Flatten(ts);
    var s := raw + rest;
    FindCloseOfTag(raw, rest);
    ScanTagStep(s, |raw| - 1);
    assert s[..|raw|] == raw;
    assert s[|raw|..] == rest;
  }

  /** Rescanning an unterminated tag. */
  lemma ScanFlattenOpen(raw: string)
    requires WellFormedToken(Open(raw))
    ensures Scan(Flatten([Open(raw)])) == [Open(raw)]
  {
    FlattenCons(Open(raw), []);
    assert raw + "" == raw;
    FindCloseAbsent(raw, 1);
    ScanOpenStep(raw);
  }

  /** Scanning the string a well-formed sequence spells gives back that sequence. */
  lemma {:induction false} ScanFlatten(ts: seq<Token>)
    requires WellFormed(ts)
    ensures Scan(Flatten(ts)) == ts
    decreases |ts|
  {
    if ts != [] {
      assert WellFormedToken(ts[0]);
      assert ts == [ts[0]] + ts[1..];
      match ts[0]
      case Text(c) =>
        WellFormedTail(ts);
        ScanFlatten(ts[1..]);
        ScanFlattenText(c, ts[1..]);
      case Tag(raw) =>
        WellFormedTail(ts);
        ScanFlatten(ts[1..]);
        ScanFlattenTag(raw, ts[1..]);
      case Open(raw) =>
        assert ts == [Open(raw)];
        ScanFlattenOpen(raw);
    }
  }

  /** Whitespace as C's `isspace` sees it. */
  predicate IsSpace(c: char) {
    c == ' ' || c == '\t' || c == '\n' || c == '\r' || c == '\U{B}' || c == '\U{C}'
  }

  /** A character that can be part of a tag name. */
  predicate NameChar(c: char) {
    !IsSpace(c) && c != '/' && c != '<' && c != '>'
  }

  /** The longest prefix of `s` made of name characters. */
  function NameRun(s: string): (r: string)
    ensures IsPrefix(r, s)
    ensures forall i :: 0 <= i < |r| ==> NameChar(r[i])
    ensures |r| < |s| ==> !NameChar(s[|r|])
    decreases |s|
  {
    if s == [] || !NameChar(s[0]) then [] else [s[0]] + NameRun(s[1..])
  }

  /** The text of a tag after its `<` and an optional `/`. */
  function NameStart(raw: string): string {
    if |raw| == 0 then ""
    else if |raw| > 1 && raw[1] == '/' then raw[2..]
    else raw[1..]
  }

  /**
   * The name of a tag: the longest run of name characters after the `<` and
   * an optional `/`, so up to whitespace, `/`, `<` or `>`.
   */
  function TagName(raw: string): (name: string)
    ensures IsPrefix(name, NameStart(raw))
    ensures forall i :: 0 <= i < |name| ==> NameChar(name[i])
    ensures |name| < |NameStart(raw)| ==> !NameChar(NameStart(raw)[|name|])
    ensures forall i :: 0 <= i < |name| ==> name[i] != '<' && name[i] != '>'
  {
    if |raw| == 0 then ""
    else
      var body := raw[1..];
      assert |body| > 0 && body[0] == '/' ==> body[1..] == raw[2..];
      NameRun(if |body| > 0 && body[0] == '/' then body[1..] else body)
  }

  /** Whether the tag `raw` survives: `<name>`, lower-cased, occurs in the lower-cased allow-string. */
  predicate Allowed(raw: string, allow: string) {
    Contains(ToLower(allow), "<" + ToLower(TagName(raw)) + ">")
  }

  /** Keeps text and allowed tags; drops other tags and an unterminated tail. */
  function KeepAllowed(ts: seq<Token>, allow: string): (r: seq<Token>)
    ensures forall i :: 0 <= i < |r| ==> r[i] in ts && !r[i].Open? && (r[i].Tag? ==> Allowed(r[i].raw, allow))
    decreases |ts|
  {
    if ts == [] then []
    else
      var rest := KeepAllowed(ts[1..], allow);
      match ts[0]
      case Text(_) => [ts[0]] + rest
      case Tag(raw) => if Allowed(raw, allow) then [ts[0]] + rest else rest
      case Open(_) => rest
  }

  /** Filtering keeps a well-formed sequence well-formed. */
  lemma {:induction false} KeepAllowedWellFormed(ts: seq<Token>, allow: string)
    requires WellFormed(ts)
    ensures WellFormed(KeepAllowed(ts, allow))
    decreases |ts|
  {
    var r := KeepAllowed(ts, allow);
    forall i | 0 <= i < |r|
      ensures WellFormedToken(r[i])
    {
      var k :| 0 <= k < |ts| && ts[k] == r[i];
      assert WellFormedToken(ts[k]);
    }
  }

  /** Filtering a filtered sequence changes nothing. */
  lemma {:induction false} KeepAllowedIdempotent(ts: seq<Token>, allow: string)
    ensures KeepAllowed(KeepAllowed(ts, allow), allow) == KeepAllowed(ts, allow)
    decreases |ts|
  {
    if ts != [] {
      KeepAllowedIdempotent(ts[1..], allow);
      var rest := KeepAllowed(ts[1..], allow);
      var r := KeepAllowed(ts, allow);
      if r != rest {
        assert r == [ts[0]] + rest;
        assert r[1..] == rest;
      }
    }
  }

  /**
   * The stripper: the output scans to exactly the input's text and allowed
   * tags, in their order.
   */
  function StripTags(html: string, allow: string): (r: string)
    ensures Scan(r) == KeepAllowed(Scan(html), allow)
  {
    var kept := KeepAllowed(Scan(html), allow);
    ScanWellFormed(html);
    KeepAllowedWellFormed(Scan(html), allow);
    ScanFlatten(kept);
    Flatten(kept)
  }

  /** The raw text of the tags in a token sequence, in order. */
  function Tags(ts: seq<Token>): seq<string>
    decreases |ts|
  {
    if ts == [] then []
    else (if ts[0].Tag? then [ts[0].raw] else []) + Tags(ts[1..])
  }

  /** The text characters of a token sequence, in order. */
  function Texts(ts: seq<Token>): string
    decreases |ts|
  {
    if ts == [] then ""
    else (if ts[0].Text? then [ts[0].c] else "") + Texts(ts[1..])
  }

  /** The allowed members of `tags`, in order. */
  function AllowedTags(tags: seq<string>, allow: string): seq<string>
    decreases |tags|
  {
    if tags == [] then []
    else (if Allowed(tags[0], allow) then [tags[0]] else []) + AllowedTags(tags[1..], allow)
  }

  /** Filtering preserves every text character and exactly the allowed tags. */
  lemma {:induction false} KeepAllowedParts(ts: seq<Token>, allow: string)
    ensures Texts(KeepAllowed(ts, allow)) == Texts(ts)
    ensures Tags(KeepAllowed(ts, allow)) == AllowedTags(Tags(ts), allow)
    decreases |ts|
  {
    if ts != [] {
      KeepAllowedParts(ts[1..], allow);
      var rest := KeepAllowed(ts[1..], allow);
      var r := KeepAllowed(ts, allow);
      if r != rest {
        assert r[1..] == rest;
      }
      if ts[0].Tag? {
        assert Tags(ts) == [ts[0].raw] + Tags(ts[1..]);
      } else {
        assert Tags(ts) == Tags(ts[1..]);
      }
    }
  }

  /** The text outside tags survives stripping unchanged. */
  lemma StripTagsKeepsText(html: string, allow: string)
    ensures Texts(Scan(StripTags(html, allow))) == Texts(Scan(html))
  {
    KeepAllowedParts(Scan(html), allow);
  }

  /** The tags left after stripping are exactly the allowed tags of the input, in order. */
  lemma StripTagsKeepsAllowedTags(html: string, allow: string)
    ensures Tags(Scan(StripTags(html, allow))) == AllowedTags(Tags(Scan(html)), allow)
  {
    KeepAllowedParts(Scan(html), allow);
  }

  /** Every member of `AllowedTags` is allowed. */
  lemma {:induction false} AllowedTagsAreAllowed(tags: seq<string>, allow: string)
    ensures forall t :: t in AllowedTags(tags, allow) ==> Allowed(t, allow)
    decreases |tags|
  {
    if tags != [] {
      AllowedTagsAreAllowed(tags[1..], allow);
    }
  }

  /** No tag outside the allow-list survives, and nothing unterminated survives. */
  lemma StripTagsOnlyAllowed(html: string, allow: string)
    ensures forall t :: t in Tags(Scan(StripTags(html, allow))) ==> Allowed(t, allow)
    ensures forall i :: 0 <= i < |Scan(StripTags(html, allow))| ==> !Scan(StripTags(html, allow))[i].Open?
  {
    StripTagsKeepsAllowedTags(html, allow);
    AllowedTagsAreAllowed(Tags(Scan(html)), allow);
  }

  /** Stripping its own output again changes nothing. */
  lemma StripTagsIdempotent(html: string, allow: string)
    ensures StripTags(StripTags(html, allow), allow) == StripTags(html, allow)
  {
    var once := StripTags(html, allow);
    KeepAllowedIdempotent(Scan(html), allow);
    FlattenScan(once);
    FlattenScan(StripTags(once, allow));
  }
}
