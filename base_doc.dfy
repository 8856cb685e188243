/**
 * Helpers shared by every documentation builder (lib/grape-swagger/documentation/base_doc.rb):
 * the Swagger 1.2 primitive types, the `type`/`$ref` schema of a type,
 * the entity-name clean-up, heredoc de-indentation and the optional
 * Markdown step.
 */
module BaseDoc {
  import opened Support
  import opened Records

  /** PRIMITIVE_TYPES. */
  const PrimitiveTypes: set<string> :=
    {"object", "integer", "long", "float", "double", "string", "byte", "boolean", "date", "dateTime"}

  // ---------------------------------------------------------------------------
  // type_to_ref

  /** A property schema: `{'type' => t}` or `{'$ref' => t}` (the reference may be nil). */
  datatype Schema = Primitive(name: string) | Reference(ref: Option<string>)

  /** A class name with an upper-case first letter turned to lower case. */
  function DecapitalizedClassName(name: string): (r: string)
    ensures |r| == |name|
    ensures forall i :: 1 <= i < |name| ==> r[i] == name[i]
  {
    if name != [] && IsUpper(name[0]) then [LowerChar(name[0])] + name[1..] else name
  }

  function TypeToken(t: TypeRef): string {
    match t
    case TypeName(token) => token
    case TypeClass(className) => DecapitalizedClassName(className)
  }

  function TypeToRef(t: Option<TypeRef>): (r: Schema)
    ensures r.Primitive? <==> t.Some? && TypeToken(t.value) in PrimitiveTypes
    ensures r.Primitive? ==> r.name == TypeToken(t.value)
    ensures r.Reference? ==> r.ref == if t.None? then None else Some(TypeToken(t.value))
  {
    match t
    case None => Reference(None)
    case Some(ty) =>
      var token := TypeToken(ty);
      if token in PrimitiveTypes then Primitive(token) else Reference(Some(token))
  }

  predicate IsLower(c: char) { 'a' <= c <= 'z' }

  function Capitalized(s: string): string {
    if s != [] && IsLower(s[0]) then [(s[0] as int - 32) as char] + s[1..] else s
  }

  /** Writing a primitive type as a class (`Integer`, `DateTime`, ...) gives the
      primitive schema back. */
  lemma {:induction false} ClassOfPrimitive(p: string)
    requires p in PrimitiveTypes
    ensures TypeToRef(Some(TypeClass(Capitalized(p)))) == Primitive(p)
  {
    assert p != [] && IsLower(p[0]) by {
      assert p[0] == 'o' || p[0] == 'i' || p[0] == 'l' || p[0] == 'f' || p[0] == 'd'
          || p[0] == 's' || p[0] == 'b';
    }
    var c := Capitalized(p);
    assert c[1..] == p[1..];
    assert DecapitalizedClassName(c) == [p[0]] + p[1..];
    assert [p[0]] + p[1..] == p;
  }

  // ---------------------------------------------------------------------------
  // stripped_model_name / parse_entity_name

  /** `gsub(/Entit(?:y|ies)/, '')`. */
  function RemoveEntityWords(s: string): string
    decreases |s|
  {
    if s == [] then []
    else if StartsWith(s, "Entity") then RemoveEntityWords(s[6..])
    else if StartsWith(s, "Entities") then RemoveEntityWords(s[8..])
    else [s[0]] + RemoveEntityWords(s[1..])
  }

  function StrippedModelName(name: string): string {
    var collapsed := ReplaceAll(RemoveEntityWords(name), "::::", "::");
    if StartsWith(collapsed, "::") then collapsed[2..] else collapsed
  }

  /** `parse_entity_name(nil)`: `nil.to_s` is empty, and so is its stripped name. */
  lemma StrippedEmpty()
    ensures StrippedModelName("") == ""
  {
    assert RemoveEntityWords("") == "";
  }

  function ParseEntityName(e: EntityRef): string {
    if e.entityName.Some? then e.entityName.value else StrippedModelName(e.name)
  }

  /** A name segment without colons and without the words the clean-up removes. */
  predicate PlainSegment(s: string) {
    ':' !in s && !Contains(s, "Entity") && !Contains(s, "Entities")
  }

  /** A plain segment in front of a colon is kept as it is. */
  lemma {:induction false} RemovePlainPrefix(a: string, b: string)
    requires PlainSegment(a)
    requires b == [] || b[0] == ':'
    ensures RemoveEntityWords(a + b) == a + RemoveEntityWords(b)
    decreases |a|
  {
    if a != [] {
      var s := a + b;
      calc {
        RemoveEntityWords(s);
        { NoWordAtPlainStart(a, b, "Entity");
          NoWordAtPlainStart(a, b, "Entities"); }
        [s[0]] + RemoveEntityWords(s[1..]);
        { assert s[0] == a[0] && s[1..] == a[1..] + b; }
        [a[0]] + RemoveEntityWords(a[1..] + b);
        { assert PlainSegment(a[1..]);
          RemovePlainPrefix(a[1..], b); }
        [a[0]] + (a[1..] + RemoveEntityWords(b));
        { assert [a[0]] + a[1..] == a; }
        a + RemoveEntityWords(b);
      }
    } else {
      assert a + b == b;
    }
  }

  /** A removed word cannot start inside a plain segment that is followed by a colon. */
  lemma NoWordAtPlainStart(a: string, b: string, w: string)
    requires a != [] && PlainSegment(a) && (b == [] || b[0] == ':')
    requires w == "Entity" || w == "Entities"
    ensures !StartsWith(a + b, w)
  {
    var s := a + b;
    if |a| >= |w| {
      assert s[..|w|] == a[..|w|];
      assert !StartsWith(a, w);
    } else if b != [] {
      NotStartsWithAt(s, w, |a|);
    } else {
      assert |s| < |w|;
    }
  }

  /** A mismatch at one position rules out a prefix. */
  lemma NotStartsWithAt<T>(s: seq<T>, p: seq<T>, i: nat)
    requires i < |p| && (i < |s| ==> s[i] != p[i])
    ensures !StartsWith(s, p)
  {
    if |p| <= |s| {
      assert s[..|p|][i] == s[i];
    }
  }

  /** A colon is never part of a removed word. */
  lemma RemoveAfterColon(b: string)
    ensures RemoveEntityWords(":" + b) == ":" + RemoveEntityWords(b)
  {
    var s := ":" + b;
    NotStartsWithAt(s, "Entity", 0);
    NotStartsWithAt(s, "Entities", 0);
    assert s[1..] == b;
  }

  lemma {:induction false} NoColonNoMatch(s: string)
    requires ':' !in s
    ensures !Contains(s, "::::")
    decreases |s|
  {
    if s != [] {
      NotStartsWithAt(s, "::::", 0);
      NoColonNoMatch(s[1..]);
    }
  }

  /** Collapsing `::::` leaves colon-free text in front alone. */
  lemma {:induction false} CollapseColonFreePrefix(a: string, b: string)
    requires ':' !in a
    ensures ReplaceAll(a + b, "::::", "::") == a + ReplaceAll(b, "::::", "::")
    decreases |a|
  {
    if a == [] {
      assert a + b == b;
    } else {
      var s := a + b;
      NotStartsWithAt(s, "::::", 0);
      assert s[1..] == a[1..] + b;
      CollapseColonFreePrefix(a[1..], b);
      calc {
        ReplaceAll(s, "::::", "::");
        [s[0]] + ReplaceAll(s[1..], "::::", "::");
        [a[0]] + (a[1..] + ReplaceAll(b, "::::", "::"));
        { assert [a[0]] + a[1..] == a; }
        a + ReplaceAll(b, "::::", "::");
      }
    }
  }

  /** Two colons in front of colon-free text are not collapsed. */
  lemma DoubleColonKept(n: string)
    requires ':' !in n
    ensures ReplaceAll("::" + n, "::::", "::") == "::" + n
  {
    var s := "::" + n;
    NotStartsWithAt(s, "::::", 2);
    var t := ":" + n;
    assert s[1..] == t;
    NotStartsWithAt(t, "::::", 1);
    assert t[1..] == n;
    NoColonNoMatch(n);
    ReplaceAbsent(n, "::::", "::");
  }

  /** A plain name is left as it is. */
  lemma StrippedPlainName(n: string)
    requires PlainSegment(n)
    ensures StrippedModelName(n) == n
  {
    RemovePlainPrefix(n, []);
    assert n + [] == n;
    NoColonNoMatch(n);
    ReplaceAbsent(n, "::::", "::");
    if n != [] {
      NotStartsWithAt(n, "::", 0);
    }
  }

  /** Removing `Entities` in front of `::` leaves the colons. */
  lemma RemoveEntitiesSegment(n: string)
    requires PlainSegment(n)
    ensures RemoveEntityWords("Entities::" + n) == "::" + n
  {
    var s := "Entities::" + n;
    assert s[..8] == "Entities";
    NotStartsWithAt(s, "Entity", 5);
    assert s[8..] == ":" + (":" + n);
    RemoveAfterColon(":" + n);
    RemoveAfterColon(n);
    RemovePlainPrefix(n, []);
    assert n + [] == n;
  }

  /** `Entities::User` becomes `User`. */
  lemma StrippedTopLevelEntities(n: string)
    requires PlainSegment(n)
    ensures StrippedModelName("Entities::" + n) == n
  {
    RemoveEntitiesSegment(n);
    DoubleColonKept(n);
    assert ("::" + n)[..2] == "::";
    assert ("::" + n)[2..] == n;
  }

  /** `API::Entities::User` becomes `API::User`. */
  lemma StrippedNestedEntities(m: string, n: string)
    requires m != [] && PlainSegment(m) && PlainSegment(n)
    ensures StrippedModelName(m + "::Entities::" + n) == m + "::" + n
  {
    RemoveNestedEntities(m, n);
    CollapseNested(m, n);
    NotStartsWithAt(m + "::" + n, "::", 0);
  }

  lemma RemoveNestedEntities(m: string, n: string)
    requires PlainSegment(m) && PlainSegment(n)
    ensures RemoveEntityWords(m + "::Entities::" + n) == m + ("::" + ("::" + n))
  {
    var tail := "::Entities::" + n;
    assert m + "::Entities::" + n == m + tail;
    RemovePlainPrefix(m, tail);
    RemoveColonsEntities(n);
  }

  lemma RemoveColonsEntities(n: string)
    requires PlainSegment(n)
    ensures RemoveEntityWords("::Entities::" + n) == "::" + ("::" + n)
  {
    var e := "Entities::" + n;
    calc {
      RemoveEntityWords("::Entities::" + n);
      { assert "::Entities::" + n == ":" + (":" + e); }
      RemoveEntityWords(":" + (":" + e));
      { RemoveAfterColon(":" + e); }
      ":" + RemoveEntityWords(":" + e);
      { RemoveAfterColon(e); }
      ":" + (":" + RemoveEntityWords(e));
      { RemoveEntitiesSegment(n); }
      ":" + (":" + ("::" + n));
      { assert ":" + (":" + ("::" + n)) == "::" + ("::" + n); }
      "::" + ("::" + n);
    }
  }

  lemma CollapseNested(m: string, n: string)
    requires ':' !in m && ':' !in n
    ensures ReplaceAll(m + ("::" + ("::" + n)), "::::", "::") == m + "::" + n
  {
    CollapseColonFreePrefix(m, "::" + ("::" + n));
    CollapseFourColons(n);
    assert m + ("::" + n) == m + "::" + n;
  }

  lemma CollapseFourColons(n: string)
    requires ':' !in n
    ensures ReplaceAll("::" + ("::" + n), "::::", "::") == "::" + n
  {
    var s := "::" + ("::" + n);
    assert s[..4] == "::::";
    assert s[4..] == n;
    NoColonNoMatch(n);
    ReplaceAbsent(n, "::::", "::");
  }

  // ---------------------------------------------------------------------------
  // strip_heredoc

  /** The lines of a string, split at every newline. */
  function Lines(s: string): (ls: seq<string>)
    ensures |ls| >= 1
    ensures forall i :: 0 <= i < |ls| ==> '\n' !in ls[i]
    decreases |s|
  {
    if s == [] then [[]]
    else if s[0] == '\n' then [[]] + Lines(s[1..])
    else
      var rest := Lines(s[1..]);
      [[s[0]] + rest[0]] + rest[1..]
  }

  /** The lines joined with newlines. */
  function Unlines(ls: seq<string>): string
    requires |ls| >= 1
  {
    if |ls| == 1 then ls[0] else ls[0] + "\n" + Unlines(ls[1..])
  }

  lemma {:induction false} UnlinesLines(s: string)
    ensures Unlines(Lines(s)) == s
    decreases |s|
  {
    if s != [] {
      UnlinesLines(s[1..]);
      var rest := Lines(s[1..]);
      if s[0] == '\n' {
        assert ([[]] + rest)[1..] == rest;
      } else if |rest| == 1 {
        assert [s[0]] + s[1..] == s;
      } else {
        var ls := [[s[0]] + rest[0]] + rest[1..];
        assert ls[1..] == rest[1..];
        assert Unlines(rest) == rest[0] + "\n" + Unlines(rest[1..]);
        assert [s[0]] + s[1..] == s;
      }
    }
  }

  /** Splitting a line without newlines in front of a newline. */
  lemma {:induction false} LinesOfLineThen(a: string, rest: string)
    requires '\n' !in a
    ensures Lines(a + "\n" + rest) == [a] + Lines(rest)
    decreases |a|
  {
    if a == [] {
      assert a + "\n" + rest == "\n" + rest;
      assert ("\n" + rest)[1..] == rest;
    } else {
      var s := a + "\n" + rest;
      assert s[1..] == a[1..] + "\n" + rest;
      LinesOfLineThen(a[1..], rest);
      assert [a[0]] + a[1..] == a;
    }
  }

  lemma {:induction false} LinesOfLine(a: string)
    requires '\n' !in a
    ensures Lines(a) == [a]
    decreases |a|
  {
    if a != [] {
      LinesOfLine(a[1..]);
      assert [a[0]] + a[1..] == a;
    }
  }

  lemma {:induction false} LinesUnlines(ls: seq<string>)
    requires |ls| >= 1
    requires forall i :: 0 <= i < |ls| ==> '\n' !in ls[i]
    ensures Lines(Unlines(ls)) == ls
    decreases |ls|
  {
    if |ls| == 1 {
      LinesOfLine(ls[0]);
    } else {
      LinesUnlines(ls[1..]);
      LinesOfLineThen(ls[0], Unlines(ls[1..]));
      assert [ls[0]] + ls[1..] == ls;
    }
  }

  predicate IsBlank(c: char) { c == ' ' || c == '\t' }

  /** Whitespace in the sense of the regular expression class `\s`. */
  predicate IsAsciiSpace(c: char) { c == ' ' || c == '\t' || c == '\n' || c == '\r' || c == '\U{C}' || c == '\U{B}' }

  function LeadingBlanks(line: string): (n: nat)
    ensures n <= |line|
    ensures forall i :: 0 <= i < n ==> IsBlank(line[i])
    ensures n < |line| ==> !IsBlank(line[n])
    decreases |line|
  {
    if line != [] && IsBlank(line[0]) then 1 + LeadingBlanks(line[1..]) else 0
  }

  /** A line that `/^[ \t]*(?=\S)/` matches: its leading blanks are followed by
      a character that is not white space. */
  predicate HasContent(line: string) {
    LeadingBlanks(line) < |line| && !IsAsciiSpace(line[LeadingBlanks(line)])
  }

  /** `gsub(/^[ \t]{n}/, '')` on one line. */
  function Dedent(line: string, n: nat): string {
    if LeadingBlanks(line) >= n then line[n..] else line
  }

  function DedentAll(ls: seq<string>, n: nat): (r: seq<string>)
    ensures |r| == |ls|
    ensures forall i :: 0 <= i < |ls| ==> r[i] == Dedent(ls[i], n)
  {
    seq(|ls|, i requires 0 <= i < |ls| => Dedent(ls[i], n))
  }

  /** The smallest indentation of a line with content, if there is such a line. */
  function ContentIndent(ls: seq<string>): (n: Option<nat>)
    ensures n.None? <==> forall i :: 0 <= i < |ls| ==> !HasContent(ls[i])
    ensures n.Some? ==> forall i :: 0 <= i < |ls| && HasContent(ls[i]) ==> n.value <= LeadingBlanks(ls[i])
    ensures n.Some? ==> exists i :: 0 <= i < |ls| && HasContent(ls[i]) && n.value == LeadingBlanks(ls[i])
    decreases |ls|
  {
    if ls == [] then None
    else
      var rest := ContentIndent(ls[1..]);
      if !HasContent(ls[0]) then rest
      else if rest.None? || LeadingBlanks(ls[0]) <= rest.value then Some(LeadingBlanks(ls[0]))
      else rest
  }

  /** strip_heredoc as the Ruby on Rails method of that name defines it: every
      line loses the indentation of the least indented line with content. */
  function StripHeredoc(s: string): string {
    var ls := Lines(s);
    Unlines(DedentAll(ls, ContentIndent(ls).GetOr(0)))
  }

  /** Every line with content loses exactly the common indentation, every other
      line loses it when it has that many leading blanks, and some line with
      content ends up starting at the first column. */
  lemma StripHeredocDedents(s: string)
    ensures var ls := Lines(s); var n := ContentIndent(ls).GetOr(0); var out := Lines(StripHeredoc(s));
      && |out| == |ls|
      && (forall i :: 0 <= i < |ls| ==> out[i] == Dedent(ls[i], n))
      && (forall i :: 0 <= i < |ls| && HasContent(ls[i]) ==> out[i] == ls[i][n..])
      && ((exists i :: 0 <= i < |ls| && HasContent(ls[i])) ==>
            exists i :: 0 <= i < |ls| && HasContent(ls[i]) && HasContent(out[i]) && LeadingBlanks(out[i]) == 0)
  {
    var ls := Lines(s);
    var n := ContentIndent(ls).GetOr(0);
    DedentKeepsLines(ls, n);
    LinesUnlines(DedentAll(ls, n));
    if exists i :: 0 <= i < |ls| && HasContent(ls[i]) {
      var i :| 0 <= i < |ls| && HasContent(ls[i]) && n == LeadingBlanks(ls[i]);
      DedentedLine(ls[i], n);
    }
  }

  /** De-indenting never introduces a newline. */
  lemma DedentKeepsLines(ls: seq<string>, n: nat)
    requires forall i :: 0 <= i < |ls| ==> '\n' !in ls[i]
    ensures forall i :: 0 <= i < |ls| ==> '\n' !in DedentAll(ls, n)[i]
  {
    forall i | 0 <= i < |ls| ensures '\n' !in DedentAll(ls, n)[i] {
      if LeadingBlanks(ls[i]) >= n {
        assert forall c :: c in ls[i][n..] ==> c in ls[i];
      }
    }
  }

  lemma DedentedLine(line: string, n: nat)
    requires HasContent(line) && n == LeadingBlanks(line)
    ensures Dedent(line, n) == line[n..]
    ensures LeadingBlanks(line[n..]) == 0 && HasContent(line[n..])
  {
    assert line[n..][0] == line[n];
  }

  // ---------------------------------------------------------------------------
  // strip_heredoc as written: `scan(...).min` compares the indentation strings
  // lexicographically, so a tab sorts before a space whatever the widths.

  /** Ruby's `String#<`: byte-wise, a proper prefix first. */
  predicate LexLess(a: string, b: string)
    decreases |a|
  {
    if a == [] then b != []
    else if b == [] then false
    else if a[0] != b[0] then a[0] < b[0]
    else LexLess(a[1..], b[1..])
  }

  function LexMin(ss: seq<string>): string
    requires |ss| >= 1
  {
    if |ss| == 1 then ss[0]
    else
      var rest := LexMin(ss[1..]);
      if LexLess(rest, ss[0]) then rest else ss[0]
  }

  /** The strings `scan(/^[ \t]*(?=\S)/)` returns: the indentation of each line with content. */
  function IndentStrings(ls: seq<string>): (r: seq<string>)
    decreases |ls|
  {
    if ls == [] then []
    else (if HasContent(ls[0]) then [ls[0][..LeadingBlanks(ls[0])]] else []) + IndentStrings(ls[1..])
  }

  function StripHeredocAsWritten(s: string): string {
    var ls := Lines(s);
    var indents := IndentStrings(ls);
    Unlines(DedentAll(ls, if indents == [] then 0 else |LexMin(indents)|))
  }

  /** With three tabs on one line and one space on the next, the code removes
      three characters, so the second line keeps its indentation. */
  lemma MixedIndentationAsWritten()
    ensures StripHeredocAsWritten(MixedText()) == "foo\n bar"
  {
    MixedLines();
    MixedAsWrittenIndent();
    MixedDedented();
  }

  /** The intended definition removes one blank from each of those lines. */
  lemma MixedIndentationIntended()
    ensures StripHeredoc(MixedText()) == "\t\tfoo\nbar"
  {
    MixedLines();
    MixedIntendedIndent();
    MixedDedented();
  }

  function MixedText(): string { "\t\t\tfoo\n bar" }

  /** The two lines of the example and their indentation. */
  lemma MixedLineFacts()
    ensures LeadingBlanks("\t\t\tfoo") == 3 && HasContent("\t\t\tfoo")
    ensures LeadingBlanks(" bar") == 1 && HasContent(" bar")
  {
    assert "\t\t\tfoo"[1..] == "\t\tfoo" && "\t\tfoo"[1..] == "\tfoo" && "\tfoo"[1..] == "foo";
    assert " bar"[1..] == "bar";
  }

  lemma MixedDedented()
    ensures Unlines(DedentAll(["\t\t\tfoo", " bar"], 3)) == "foo\n bar"
    ensures Unlines(DedentAll(["\t\t\tfoo", " bar"], 1)) == "\t\tfoo\nbar"
  {
    MixedLineFacts();
    calc {
      DedentAll(["\t\t\tfoo", " bar"], 3);
      [Dedent("\t\t\tfoo", 3), Dedent(" bar", 3)];
      ["foo", " bar"];
    }
    calc {
      DedentAll(["\t\t\tfoo", " bar"], 1);
      [Dedent("\t\t\tfoo", 1), Dedent(" bar", 1)];
      ["\t\tfoo", "bar"];
    }
    assert Unlines(["foo", " bar"]) == "foo\n bar";
    assert Unlines(["\t\tfoo", "bar"]) == "\t\tfoo\nbar";
  }

  lemma MixedLines()
    ensures Lines(MixedText()) == ["\t\t\tfoo", " bar"]
  {
    var ls := ["\t\t\tfoo", " bar"];
    assert Unlines(ls) == MixedText();
    LinesUnlines(ls);
  }

  lemma MixedAsWrittenIndent()
    ensures IndentStrings(["\t\t\tfoo", " bar"]) == ["\t\t\t", " "]
    ensures LexMin(["\t\t\t", " "]) == "\t\t\t"
  {
    MixedLineFacts();
    calc {
      IndentStrings(["\t\t\tfoo", " bar"]);
      { assert ["\t\t\tfoo", " bar"][1..] == [" bar"]; }
      ["\t\t\tfoo"[..3]] + IndentStrings([" bar"]);
      { assert [" bar"][1..] == []; }
      ["\t\t\tfoo"[..3]] + [" bar"[..1]] + IndentStrings([]);
      { assert "\t\t\tfoo"[..3] == "\t\t\t" && " bar"[..1] == " "; }
      ["\t\t\t", " "];
    }
    assert LexLess("\t\t\t", " ");
  }

  lemma MixedIntendedIndent()
    ensures ContentIndent(["\t\t\tfoo", " bar"]) == Some(1)
  {
    MixedLineFacts();
    assert ContentIndent([" bar"]) == Some(1) by {
      assert [" bar"][1..] == [];
    }
    assert ["\t\t\tfoo", " bar"][1..] == [" bar"];
  }

  /** `as_markdown`: the description de-indented and rendered when a renderer is
      configured, the description itself otherwise. */
  function AsMarkdown(description: Option<string>, markdown: Markdown): (r: Option<string>)
    ensures description.None? || markdown.NoMarkdown? ==> r == description
    ensures r.Some? <==> description.Some?
  {
    if description.Some? && markdown.Renderer? then Some(markdown.render(StripHeredoc(description.value)))
    else description
  }
}
