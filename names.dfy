/** The string helpers of the MCP interface that guard names and references:
    book slugs, export file names, the title-to-file-name sanitiser, node type
    names and book references (src/interface/mcp.rs). */
module Names {
  import opened Wrappers
  import opened Node
  import opened Decimal
  import opened Seqs
  import opened Eject

  /** `McpError::invalid_params`: the message the client receives. */
  datatype InvalidParams = InvalidParams(message: string)

  predicate IsAsciiAlphanumeric(c: char) {
    'a' <= c <= 'z' || 'A' <= c <= 'Z' || '0' <= c <= '9'
  }

  // ---------------------------------------------------------------- doubled characters

  /** `c` occurs twice in a row in `s` (`s.contains("..")` when `c` is '.'). */
  predicate Doubled(s: string, c: char)
    decreases |s|
  {
    |s| >= 2 && ((s[0] == c && s[1] == c) || Doubled(s[1..], c))
  }

  lemma {:induction false} DoubledAt(s: string, c: char)
    ensures Doubled(s, c) <==> exists i :: 0 <= i < |s| - 1 && s[i] == c && s[i + 1] == c
    decreases |s|
  {
    if |s| >= 2 {
      DoubledAt(s[1..], c);
      if exists i :: 0 <= i < |s| - 1 && s[i] == c && s[i + 1] == c {
        var i :| 0 <= i < |s| - 1 && s[i] == c && s[i + 1] == c;
        if i > 0 {
          assert s[1..][i - 1] == c && s[1..][i] == c;
        }
      }
      if Doubled(s[1..], c) {
        var i :| 0 <= i < |s[1..]| - 1 && s[1..][i] == c && s[1..][i + 1] == c;
        assert s[i + 1] == c && s[i + 2] == c;
      }
    }
  }

  /** Cutting the end off a string cannot create a doubled character. */
  lemma DoubledPrefix(a: string, b: string, c: char)
    requires a <= b && !Doubled(b, c)
    ensures !Doubled(a, c)
  {
    DoubledAt(a, c);
    DoubledAt(b, c);
  }

  // ---------------------------------------------------------------- validate_slug

  predicate SlugChar(c: char) {
    IsAsciiAlphanumeric(c) || c == '-' || c == '_'
  }

  /** `validate_slug`: a slug is a non-empty run of ASCII letters, digits, '-' and '_'. */
  function ValidateSlug(slug: string): (r: Outcome<InvalidParams>)
    ensures r.Pass? <==> slug != "" && forall i :: 0 <= i < |slug| ==> SlugChar(slug[i])
    ensures slug == "" ==> r == Fail(InvalidParams("slug must not be empty"))
  {
    if slug == "" then Fail(InvalidParams("slug must not be empty"))
    else if !(forall i :: 0 <= i < |slug| ==> SlugChar(slug[i])) then
      Fail(InvalidParams("slug must contain only alphanumeric characters, hyphens, and underscores"))
    else Pass
  }

  // ---------------------------------------------------------------- validate_filename

  /** `validate_filename`: no path separator, no "..", not empty. */
  function ValidateFilename(name: string): (r: Outcome<InvalidParams>)
    ensures r.Pass? <==> name != "" && '/' !in name && '\\' !in name &&
                         forall i :: 0 <= i < |name| - 1 ==> !(name[i] == '.' && name[i + 1] == '.')
  {
    DoubledAt(name, '.');
    if '/' in name || '\\' in name || Doubled(name, '.') || name == "" then
      Fail(InvalidParams("filename must not contain path separators, '..', or be empty"))
    else Pass
  }

  /** A book is stored as `<slug>.json` in the shelf directory: a slug that
      passes `validate_slug` always names a file inside that directory. */
  lemma SlugFileStaysInShelf(slug: string)
    requires ValidateSlug(slug).Pass?
    ensures ValidateFilename(slug + ".json").Pass?
  {
    var name := slug + ".json";
    assert forall i :: 0 <= i < |slug| ==> name[i] == slug[i] && SlugChar(slug[i]);
    assert forall i :: |slug| <= i < |name| ==> name[i] == ".json"[i - |slug|];
    assert forall i :: 0 <= i < |name| - 1 ==> !(name[i] == '.' && name[i + 1] == '.');
    assert '/' !in name;
    assert '\\' !in name;
  }

  /** The slugs the tool documents as accepted and rejected. */
  lemma SlugExamples()
    ensures ValidateSlug("rust").Pass? && ValidateSlug("my-book").Pass?
    ensures ValidateSlug("dev_standards").Pass? && ValidateSlug("book123").Pass?
    ensures ValidateSlug("").Fail? && ValidateSlug("has space").Fail? && ValidateSlug("path/traversal").Fail?
    ensures ValidateSlug("dot..dot").Fail? && ValidateSlug("日本語").Fail?
  {
    assert !SlugChar("has space"[3]);
    assert !SlugChar("path/traversal"[4]);
    assert !SlugChar("dot..dot"[3]);
    assert !SlugChar("日本語"[0]);
  }

  // ---------------------------------------------------------------- sanitize_for_filename

  /** The characters a sanitised name is made of: ASCII letters and digits and `-_.()`. */
  predicate FileChar(c: char) {
    IsAsciiAlphanumeric(c) || c == '-' || c == '_' || c == '.' || c == '(' || c == ')'
  }

  predicate AllFileChars(s: string) {
    forall i :: 0 <= i < |s| ==> FileChar(s[i])
  }

  /** First stage: every other character becomes '_'. */
  function Scrub(title: string): (r: string)
    ensures |r| == |title| && AllFileChars(r)
    ensures forall i :: 0 <= i < |r| ==> r[i] == (if FileChar(title[i]) then title[i] else '_')
  {
    seq(|title|, i requires 0 <= i < |title| => if FileChar(title[i]) then title[i] else '_')
  }

  /** Second stage: a run of '_' shrinks to one, and a run at the very start
      (`afterUnderscore` begins true) disappears. */
  function Collapse(s: string, afterUnderscore: bool): string
    decreases |s|
  {
    if s == [] then []
    else if s[0] == '_' then (if afterUnderscore then "" else "_") + Collapse(s[1..], true)
    else [s[0]] + Collapse(s[1..], false)
  }

  /** Third stage: trailing '_' are popped one by one. */
  function TrimTrailing(s: string): (r: string)
    ensures r <= s && (r == [] || r[|r| - 1] != '_')
    ensures forall i :: |r| <= i < |s| ==> s[i] == '_'
    decreases |s|
  {
    if s != [] && s[|s| - 1] == '_' then TrimTrailing(s[..|s| - 1]) else s
  }

  /** `str::replace("..", "_")`: every non-overlapping "..", left to right. */
  function ReplaceDotDot(s: string): (r: string)
    ensures |r| <= |s| && (Doubled(s, '.') ==> |r| < |s|)
    ensures r == [] <==> s == []
    decreases |s|
  {
    if |s| >= 2 && s[0] == '.' && s[1] == '.' then "_" + ReplaceDotDot(s[2..])
    else if s == [] then []
    else [s[0]] + ReplaceDotDot(s[1..])
  }

  /** Fourth stage: replacing again while any ".." is left. */
  function ReplaceAllDotDot(s: string): (r: string)
    ensures !Doubled(r, '.')
    ensures r == [] <==> s == []
    decreases |s|
  {
    if Doubled(s, '.') then ReplaceAllDotDot(ReplaceDotDot(s)) else s
  }

  /** The four stages in the order the source runs them. */
  function SanitizedStages(title: string): string {
    ReplaceAllDotDot(TrimTrailing(Collapse(Scrub(title), true)))
  }

  /** `sanitize_for_filename`, with "untitled" when nothing is left. */
  function Sanitize(title: string): string {
    var r := SanitizedStages(title);
    if r == [] then "untitled" else r
  }

  /** `sanitize_for_filename` as the source runs it: a loop with an
      "after underscore" flag, then pops, then replacements until no ".." is left. */
  method SanitizeForFilename(title: string) returns (name: string)
    ensures name == Sanitize(title)
  {
    var sanitized := Scrub(title);
    var result := "";
    var prevUnderscore := true;
    for i := 0 to |sanitized|
      invariant result + Collapse(sanitized[i..], prevUnderscore) == Collapse(sanitized, true)
    {
      var c := sanitized[i];
      assert sanitized[i..][1..] == sanitized[i + 1..];
      ghost var rest := Collapse(sanitized[i + 1..], c == '_');
      if c == '_' {
        if !prevUnderscore {
          AppendAssoc(result, "_", rest);
          result := result + "_";
        } else {
          assert "" + rest == rest;
        }
        prevUnderscore := true;
      } else {
        AppendAssoc(result, [c], rest);
        result := result + [c];
        prevUnderscore := false;
      }
    }
    assert sanitized[|sanitized|..] == [];
    assert result == Collapse(sanitized, true);
    while result != [] && result[|result| - 1] == '_'
      invariant TrimTrailing(result) == TrimTrailing(Collapse(sanitized, true))
      decreases |result|
    {
      result := result[..|result| - 1];
    }
    while Doubled(result, '.')
      invariant ReplaceAllDotDot(result) == SanitizedStages(title)
      decreases |result|
    {
      result := ReplaceDotDot(result);
    }
    if result == [] {
      name := "untitled";
    } else {
      name := result;
    }
  }

  lemma {:induction false} CollapseFileChars(s: string, p: bool)
    requires AllFileChars(s)
    ensures AllFileChars(Collapse(s, p))
    decreases |s|
  {
    if s != [] {
      CollapseFileChars(s[1..], s[0] == '_');
    }
  }

  lemma {:induction false} ReplaceFileChars(s: string)
    requires AllFileChars(s)
    ensures AllFileChars(ReplaceDotDot(s))
    decreases |s|
  {
    if |s| >= 2 && s[0] == '.' && s[1] == '.' {
      ReplaceFileChars(s[2..]);
    } else if s != [] {
      ReplaceFileChars(s[1..]);
    }
  }

  lemma {:induction false} ReplaceAllFileChars(s: string)
    requires AllFileChars(s)
    ensures AllFileChars(ReplaceAllDotDot(s))
    decreases |s|
  {
    if Doubled(s, '.') {
      ReplaceFileChars(s);
      ReplaceAllFileChars(ReplaceDotDot(s));
    }
  }

  /** A sanitised name is never empty, uses only ASCII letters, digits and
      `-_.()`, and never contains "..". */
  lemma SanitizeShape(title: string)
    ensures Sanitize(title) != [] && AllFileChars(Sanitize(title)) && !Doubled(Sanitize(title), '.')
  {
    var c := Collapse(Scrub(title), true);
    CollapseFileChars(Scrub(title), true);
    ReplaceAllFileChars(TrimTrailing(c));
    UntitledIsTidy();
  }

  /** The fallback name is itself tidy. */
  lemma UntitledIsTidy()
    ensures AllFileChars("untitled") && !Doubled("untitled", '.') && !Doubled("untitled", '_')
  {
    DoubledAt("untitled", '.');
    DoubledAt("untitled", '_');
  }

  /** Hence every sanitised title is a file name `validate_filename` accepts. */
  lemma SanitizedNameIsValid(title: string)
    ensures ValidateFilename(Sanitize(title)).Pass?
  {
    var name := Sanitize(title);
    SanitizeShape(title);
    DoubledAt(name, '.');
  }

  /** Collapsing keeps every character other than '_'. */
  lemma {:induction false} CollapseKeeps(s: string, p: bool, i: nat)
    requires i < |s| && s[i] != '_'
    ensures Collapse(s, p) != []
    decreases |s|
  {
    if i > 0 {
      CollapseKeeps(s[1..], s[0] == '_', i - 1);
    }
  }

  /** Only '_' collapse to nothing at the start. */
  lemma {:induction false} CollapseUnderscores(s: string)
    requires forall i :: 0 <= i < |s| ==> s[i] == '_'
    ensures Collapse(s, true) == []
    decreases |s|
  {
    if s != [] {
      CollapseUnderscores(s[1..]);
    }
  }

  /** The fallback name is used exactly when no character of the title survives:
      every one is '_' or outside the kept set. */
  lemma SanitizeFallback(title: string)
    ensures SanitizedStages(title) == [] <==> forall i :: 0 <= i < |title| ==> title[i] == '_' || !FileChar(title[i])
  {
    var sc := Scrub(title);
    if forall i :: 0 <= i < |title| ==> title[i] == '_' || !FileChar(title[i]) {
      CollapseUnderscores(sc);
    } else {
      var i :| 0 <= i < |title| && !(title[i] == '_' || !FileChar(title[i]));
      assert sc[i] != '_';
      CollapseKeeps(sc, true, i);
      var c := Collapse(sc, true);
      var t := TrimTrailing(c);
      if t == [] {
        CollapseLastNotUnderscore(sc, i);
      }
    }
  }

  /** A kept character that is not '_' makes the collapsed text end in
      something other than '_' somewhere, so trimming leaves it non-empty. */
  lemma {:induction false} CollapseLastNotUnderscore(s: string, i: nat)
    requires i < |s| && s[i] != '_'
    ensures TrimTrailing(Collapse(s, true)) != []
  {
    var c := Collapse(s, true);
    var k := CollapseWitness(s, true, i);
    var t := TrimTrailing(c);
  }

  /** Where a non-'_' character ends up in the collapsed text. */
  lemma {:induction false} CollapseWitness(s: string, p: bool, i: nat) returns (k: nat)
    requires i < |s| && s[i] != '_'
    ensures k < |Collapse(s, p)| && Collapse(s, p)[k] == s[i]
    decreases |s|
  {
    var rest := Collapse(s[1..], s[0] == '_');
    var head: string := if s[0] == '_' then (if p then "" else "_") else [s[0]];
    assert Collapse(s, p) == head + rest;
    if i == 0 {
      k := 0;
    } else {
      var k' := CollapseWitness(s[1..], s[0] == '_', i - 1);
      k := |head| + k';
    }
  }

  /** The tool's own examples. */
  lemma SanitizeFallbackExamples()
    ensures Sanitize("") == "untitled" && Sanitize("   ") == "untitled" && Sanitize("///") == "untitled"
  {
    NothingKept("", ' ');
    var spaces, slashes := "   ", "///";
    assert |spaces| == 3 && spaces[0] == spaces[1] == spaces[2] == ' ';
    NothingKept(spaces, ' ');
    assert |slashes| == 3 && slashes[0] == slashes[1] == slashes[2] == '/';
    NothingKept(slashes, '/');
  }

  /** A title made of one character outside the kept set falls back to "untitled". */
  lemma NothingKept(title: string, c: char)
    requires !FileChar(c) && forall i :: 0 <= i < |title| ==> title[i] == c
    ensures Sanitize(title) == "untitled"
  {
    SanitizeFallback(title);
  }

  // ---------------------------------------------------------------- the ".." stage runs last

  /** The replacement stage runs after the underscores have been tidied, so it can
      leave a '_' at the end, at the start, or next to another '_'. */
  lemma SanitizeLeavesUnderscores()
    ensures Sanitize("a..") == "a_"
    ensures Sanitize("..a") == "_a"
  {
    assert Scrub("a..") == "a..";
    assert Collapse("a..", true) == "a..";
    assert TrimTrailing("a..") == "a..";
    assert ReplaceDotDot("a..") == "a_";
    assert ReplaceAllDotDot("a_") == "a_";
    assert Scrub("..a") == "..a";
    assert Collapse("..a", true) == "..a";
    assert TrimTrailing("..a") == "..a";
    assert ReplaceDotDot("..a") == "_a";
    assert ReplaceAllDotDot("_a") == "_a";
  }

  /** The stages in the order that keeps the promise: ".." is replaced first,
      then runs of '_' are collapsed and the ends trimmed. */
  function SanitizeIntended(title: string): string {
    var r := TrimTrailing(Collapse(ReplaceAllDotDot(Scrub(title)), true));
    if r == [] then "untitled" else r
  }

  /** What collapsing guarantees: no "__", no leading '_' when starting after an
      underscore, the first character kept otherwise, and no new "..". */
  lemma {:induction false} CollapseTidy(s: string, p: bool)
    ensures !Doubled(Collapse(s, p), '_')
    ensures p ==> Collapse(s, p) == [] || Collapse(s, p)[0] != '_'
    ensures !p && s != [] ==> Collapse(s, p) != [] && Collapse(s, p)[0] == s[0]
    ensures !Doubled(s, '.') ==> !Doubled(Collapse(s, p), '.')
    decreases |s|
  {
    if s != [] {
      var rest := Collapse(s[1..], s[0] == '_');
      CollapseTidy(s[1..], s[0] == '_');
      var out := Collapse(s, p);
      if s[0] == '_' {
        if !p {
          assert out == "_" + rest;
          assert out[1..] == rest;
        } else {
          assert out == rest;
        }
      } else {
        assert out == [s[0]] + rest;
        assert out[1..] == rest;
        if !Doubled(s, '.') {
          assert !Doubled(s[1..], '.');
        }
      }
    }
  }

  /** The corrected order keeps every promise of the stages: a non-empty name of
      ASCII letters, digits and `-_.()`, no "..", no "__", and no '_' at either end. */
  lemma SanitizeIntendedShape(title: string)
    ensures var n := SanitizeIntended(title);
            && n != [] && AllFileChars(n)
            && !Doubled(n, '.') && !Doubled(n, '_')
            && n[0] != '_' && n[|n| - 1] != '_'
  {
    var d := ReplaceAllDotDot(Scrub(title));
    ReplaceAllFileChars(Scrub(title));
    var c := Collapse(d, true);
    CollapseFileChars(d, true);
    CollapseTidy(d, true);
    var t := TrimTrailing(c);
    DoubledPrefix(t, c, '.');
    DoubledPrefix(t, c, '_');
    if t != [] {
      assert t[0] == c[0];
    }
    UntitledIsTidy();
  }

  /** The corrected order still gives the documented results for "..". */
  lemma SanitizeIntendedExamples()
    ensures SanitizeIntended("a...b") == "a_.b"
    ensures SanitizeIntended("a..") == "a"
  {
    assert Scrub("a...b") == "a...b";
    assert ReplaceDotDot("a...b") == "a_.b";
    assert ReplaceAllDotDot("a_.b") == "a_.b";
    assert Collapse("a_.b", true) == "a_.b";
    assert TrimTrailing("a_.b") == "a_.b";
    assert Scrub("a..") == "a..";
    assert ReplaceDotDot("a..") == "a_";
    assert ReplaceAllDotDot("a_") == "a_";
    assert Collapse("a_", true) == "a_";
    assert TrimTrailing("a_") == "a";
  }

  // ---------------------------------------------------------------- parse_node_type

  /** `parse_node_type`: exactly the two type names, anything else refused by name. */
  function ParseNodeType(s: string): (r: Result<NodeType, InvalidParams>)
    ensures r == Ok(Section) <==> s == "section"
    ensures r == Ok(Content) <==> s == "content"
    ensures r.Err? ==> r.error == InvalidParams("Unknown node_type: '" + s + "'. Use: section, content")
  {
    if s == "section" then Ok(Section)
    else if s == "content" then Ok(Content)
    else Err(InvalidParams("Unknown node_type: '" + s + "'. Use: section, content"))
  }

  /** Every type name the export writes is accepted back as that type. */
  lemma ParseNodeTypeRoundTrip(t: NodeType)
    ensures ParseNodeType(ExportTag(t)) == Ok(t)
  {
  }

  // ---------------------------------------------------------------- resolve_book_ref

  /** `resolve_book_ref` over the sorted slugs of the shelf: a number picks the
      book at that 1-based position, anything else is taken as a slug. */
  function ResolveBookRef(bookRef: string, slugs: seq<string>): (r: Result<string, InvalidParams>)
    ensures ParseUsize(bookRef).None? ==> r == Ok(bookRef)
    ensures ParseUsize(bookRef).Some? ==>
              (r.Ok? <==> 1 <= ParseUsize(bookRef).value <= |slugs|) &&
              (r.Ok? ==> r.value == slugs[ParseUsize(bookRef).value - 1])
  {
    match ParseUsize(bookRef)
    case None => Ok(bookRef)
    case Some(num) =>
      if num == 0 || num > |slugs| then
        Err(InvalidParams("Book number " + NatToString(num) + " out of range (1-" + NatToString(|slugs|) +
                          "). Use `shelf` to see available books."))
      else Ok(slugs[num - 1])
  }

  /** Book number `i + 1`, as the shelf lists it, names the `i`-th slug. */
  lemma BookNumberResolves(slugs: seq<string>, i: nat)
    requires i < |slugs| <= USIZE_MAX
    ensures ResolveBookRef(NatToString(i + 1), slugs) == Ok(slugs[i])
  {
    ParseDisplayed(i + 1);
  }

  /** A slug with a character that is not a digit passes through unchanged. */
  lemma SlugRefPassesThrough(slug: string, slugs: seq<string>, i: nat)
    requires ValidateSlug(slug).Pass? && i < |slug| && !IsDigit(slug[i])
    ensures ResolveBookRef(slug, slugs) == Ok(slug)
  {
    assert SlugChar(slug[i]);
    ParseRejectsNonDigits(slug, i);
  }

  /** The number zero and numbers past the end are refused, naming the valid range. */
  lemma BookNumberOutOfRange(slugs: seq<string>, n: nat)
    requires n <= USIZE_MAX && (n == 0 || n > |slugs|)
    ensures ResolveBookRef(NatToString(n), slugs) ==
            Err(InvalidParams("Book number " + NatToString(n) + " out of range (1-" + NatToString(|slugs|) +
                              "). Use `shelf` to see available books."))
  {
    ParseDisplayed(n);
  }
}
