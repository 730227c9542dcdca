/** The registry configuration template exported by src/config.yml.ts: a
    YAML text holding the placeholders `{{addr}}`, `{{data}}`, `{{auth}}`
    and `{{certs}}` that the action fills in before writing config.yml. */
module ConfigYml {
  import opened JsStrings

  /** The placeholders of the template. */
  datatype Placeholder = Addr | Data | Auth | Certs

  /** The name between the braces. */
  function Name(p: Placeholder): (n: string)
    ensures |n| >= 2 && '{' !in n && '}' !in n && '\n' !in n
  {
    match p
    case Addr => "addr"
    case Data => "data"
    case Auth => "auth"
    case Certs => "certs"
  }

  /** The text that stands for `p` in the template: its name in double
      braces. */
  function Token(p: Placeholder): (t: string)
  {
    "{{" + Name(p) + "}}"
  }

  /** The template is a line per entry below, joined with "\n": the text
      opens with a line break right after the opening backquote (the empty
      first line) and ends with one before the closing backquote (the
      empty last line). Entry `k` is line `k + 1` of src/config.yml.ts. */
  const Lines: seq<string> := [
    "",
    "version: 0.1",
    "",
    "log:",
    "  level: debug",
    "  fields:",
    "    service: registry",
    "    environment: development",
    "",
    "storage:",
    "  filesystem:",
    "    rootdirectory: {{data}}",
    "  cache:",
    "    blobdescriptor: inmemory",
    "  delete:",
    "    enabled: true",
    "  tag:",
    "    concurrencylimit: 5",
    "",
    "http:",
    "  addr: {{addr}}",
    "  headers:",
    "    X-Content-Type-Options: [nosniff]",
    "  # debug:",
    "  #   addr: :5001",
    "  #   prometheus:",
    "  #     enabled: true",
    "  #     path: /metrics",
    "  # tls:",
    "  #   certificate: {{certs}}/domain.crt",
    "  #   key: {{certs}}/domain.key",
    "",
    "auth:",
    "  htpasswd:",
    "    realm: basic-realm",
    "    path: {{auth}}/htpasswd",
    ""
  ]

  /** The template text. */
  const Template: string := Join(Lines, "\n")

  /** The entries of `Lines` that hold a placeholder. */
  predicate IsPlaceholderRow(i: int)
  {
    i == 11 || i == 20 || i == 29 || i == 30 || i == 35
  }

  /** Which placeholder a placeholder row holds, and the text around it. */
  datatype Row = Row(prefix: string, placeholder: Placeholder, suffix: string)

  function RowAt(i: int): Row
    requires IsPlaceholderRow(i)
  {
    if i == 11 then Row("    rootdirectory: ", Data, "")
    else if i == 20 then Row("  addr: ", Addr, "")
    else if i == 29 then Row("  #   certificate: ", Certs, "/domain.crt")
    else if i == 30 then Row("  #   key: ", Certs, "/domain.key")
    else Row("    path: ", Auth, "/htpasswd")
  }

  /** The text of a placeholder row. */
  function RowText(row: Row): string
  {
    row.prefix + Token(row.placeholder) + row.suffix
  }

  /** The shape of the template's lines: 37 of them, none holding a line
      break; each placeholder row is its prefix, one placeholder and its
      suffix; every other line is free of '{'. */
  ghost predicate Shaped(ls: seq<string>)
  {
    && BracesOnRows(ls)
    && (forall i | 0 <= i < |ls| :: '\n' !in ls[i])
    && (forall i | IsPlaceholderRow(i) :: ls[i] == RowText(RowAt(i)))
  }

  /** Lines free of '{' everywhere but on the placeholder rows. */
  ghost predicate BracesOnRows(ls: seq<string>)
  {
    |ls| == 37 && forall i | 0 <= i < |ls| && !IsPlaceholderRow(i) :: '{' !in ls[i]
  }

  /** No '{' and no line break around a row's placeholder. */
  lemma RowPlain(i: int)
    requires IsPlaceholderRow(i)
    ensures Plain(RowAt(i).prefix) && Plain(RowAt(i).suffix)
  {
    if i == 11 {
      assert Plain("    rootdirectory: ");
    } else if i == 20 {
      assert Plain("  addr: ");
    } else if i == 29 {
      assert Plain("  #   certificate: ") && Plain("/domain.crt");
    } else if i == 30 {
      assert Plain("  #   key: ") && Plain("/domain.key");
    } else {
      assert Plain("    path: ") && Plain("/htpasswd");
    }
  }

  /** No '{' around a row's placeholder. */
  lemma RowBraces(i: int)
    requires IsPlaceholderRow(i)
    ensures '{' !in RowAt(i).prefix && '{' !in RowAt(i).suffix
  {
    RowPlain(i);
    PlainLacks(RowAt(i).prefix);
    PlainLacks(RowAt(i).suffix);
  }

  /** A line break in a concatenation is in one of its parts. */
  lemma BreakFree(a: string, b: string, c: string)
    requires '\n' !in a && '\n' !in b && '\n' !in c
    ensures '\n' !in a + b + c
  {
    assert forall ch :: ch in a + b + c ==> ch in a || ch in b || ch in c;
  }

  /** No line break in a row. */
  lemma RowBreaks(i: int)
    requires IsPlaceholderRow(i)
    ensures '\n' !in RowText(RowAt(i))
  {
    var row := RowAt(i);
    RowPlain(i);
    PlainLacks(row.prefix);
    PlainLacks(row.suffix);
    var n := Name(row.placeholder);
    BreakFree("{{", n, "}}");
    BreakFree(row.prefix, Token(row.placeholder), row.suffix);
  }

  lemma RowsWithoutBreaks()
    ensures forall i | IsPlaceholderRow(i) :: '\n' !in RowText(RowAt(i))
  {
    forall i | IsPlaceholderRow(i) ensures '\n' !in RowText(RowAt(i)) {
      RowBreaks(i);
    }
  }

  /** A line that holds neither '{' nor a line break, checked a character
      at a time. */
  predicate Plain(line: string)
  {
    forall k :: 0 <= k < |line| ==> line[k] != '{' && line[k] != '\n'
  }

  lemma PlainLacks(line: string)
    requires Plain(line)
    ensures '{' !in line && '\n' !in line
  {
  }

  // The lines without a placeholder, a few at a time.

  lemma PlainLines0()
    ensures forall i | 0 <= i < 2 :: Plain(Lines[i])
  {
  }

  lemma PlainLines2()
    ensures forall i | 2 <= i < 4 :: Plain(Lines[i])
  {
  }

  lemma PlainLines4()
    ensures forall i | 4 <= i < 6 :: Plain(Lines[i])
  {
  }

  lemma PlainLines6()
    ensures forall i | 6 <= i < 8 :: Plain(Lines[i])
  {
  }

  lemma PlainLines8()
    ensures forall i | 8 <= i < 11 :: Plain(Lines[i])
  {
  }

  lemma PlainLines12()
    ensures forall i | 12 <= i < 14 :: Plain(Lines[i])
  {
  }

  lemma PlainLines14()
    ensures forall i | 14 <= i < 16 :: Plain(Lines[i])
  {
  }

  lemma PlainLines16()
    ensures forall i | 16 <= i < 18 :: Plain(Lines[i])
  {
  }

  lemma PlainLines18()
    ensures forall i | 18 <= i < 20 :: Plain(Lines[i])
  {
  }

  lemma PlainLines21()
    ensures forall i | 21 <= i < 23 :: Plain(Lines[i])
  {
  }

  lemma PlainLines23()
    ensures forall i | 23 <= i < 25 :: Plain(Lines[i])
  {
  }

  lemma PlainLines25()
    ensures forall i | 25 <= i < 27 :: Plain(Lines[i])
  {
  }

  lemma PlainLines27()
    ensures forall i | 27 <= i < 29 :: Plain(Lines[i])
  {
  }

  lemma PlainLines31()
    ensures forall i | 31 <= i < 33 :: Plain(Lines[i])
  {
  }

  lemma PlainLines33()
    ensures forall i | 33 <= i < 35 :: Plain(Lines[i])
  {
  }

  lemma PlainLines36()
    ensures forall i | i == 36 :: Plain(Lines[i])
  {
  }

  /** The template has 37 lines, and every line other than a placeholder
      row is free of '{' and of line breaks. */
  lemma LinesWithoutPlaceholders()
    ensures |Lines| == 37
    ensures forall i | 0 <= i < |Lines| && !IsPlaceholderRow(i) :: '{' !in Lines[i] && '\n' !in Lines[i]
  {
    PlainLines0();
    PlainLines2();
    PlainLines4();
    PlainLines6();
    PlainLines8();
    PlainLines12();
    PlainLines14();
    PlainLines16();
    PlainLines18();
    PlainLines21();
    PlainLines23();
    PlainLines25();
    PlainLines27();
    PlainLines31();
    PlainLines33();
    PlainLines36();
    forall i | 0 <= i < |Lines| && !IsPlaceholderRow(i)
      ensures '{' !in Lines[i] && '\n' !in Lines[i]
    {
      PlainLacks(Lines[i]);
    }
  }

  lemma TlsLine() ensures Lines[28] == "  # tls:" {
  }

  // The placeholder rows, one at a time.

  lemma Row11() ensures Lines[11] == RowText(RowAt(11)) {
    Row11a();
    Row11b();
  }
  lemma Row11a() ensures Lines[11] == "    rootdirectory: {{data}}" {
  }
  lemma Row11b() ensures RowText(RowAt(11)) == "    rootdirectory: {{data}}" {
  }

  lemma Row20() ensures Lines[20] == RowText(RowAt(20)) {
    Row20a();
    Row20b();
  }
  lemma Row20a() ensures Lines[20] == "  addr: {{addr}}" {
  }
  lemma Row20b() ensures RowText(RowAt(20)) == "  addr: {{addr}}" {
  }

  lemma Row29() ensures Lines[29] == RowText(RowAt(29)) {
    Row29a();
    Row29b();
  }
  lemma Row29a() ensures Lines[29] == "  #   certificate: {{certs}}/domain.crt" {
  }
  lemma Row29b() ensures RowText(RowAt(29)) == "  #   certificate: {{certs}}/domain.crt" {
  }

  lemma Row30() ensures Lines[30] == RowText(RowAt(30)) {
    Row30a();
    Row30b();
  }
  lemma Row30a() ensures Lines[30] == "  #   key: {{certs}}/domain.key" {
  }
  lemma Row30b() ensures RowText(RowAt(30)) == "  #   key: {{certs}}/domain.key" {
  }

  lemma Row35() ensures Lines[35] == RowText(RowAt(35)) {
    Row35a();
    Row35b();
  }
  lemma Row35a() ensures Lines[35] == "    path: {{auth}}/htpasswd" {
  }
  lemma Row35b() ensures RowText(RowAt(35)) == "    path: {{auth}}/htpasswd" {
  }

  /** Each placeholder row is the text `RowAt` describes. */
  lemma LinesWithPlaceholders()
    ensures forall i | IsPlaceholderRow(i) :: Lines[i] == RowText(RowAt(i))
  {
    Row11();
    Row20();
    Row29();
    Row30();
    Row35();
  }

  /** The template's lines have the shape above. */
  lemma LinesShaped()
    ensures Shaped(Lines)
  {
    RowsWithoutBreaks();
    LinesWithoutPlaceholders();
    LinesWithPlaceholders();
  }

  // ------------------------------------------------------------ counting

  /** The occurrences of `pat` in each of `lines`, added up. */
  function LinesCount(lines: seq<string>, pat: string): nat
    requires |pat| > 0
  {
    if |lines| == 0 then 0 else Count(lines[0], pat) + LinesCount(lines[1..], pat)
  }

  lemma {:induction false} LinesCountAppend(a: seq<string>, b: seq<string>, pat: string)
    requires |pat| > 0
    ensures LinesCount(a + b, pat) == LinesCount(a, pat) + LinesCount(b, pat)
  {
    if |a| > 0 {
      assert (a + b)[1..] == a[1..] + b;
      LinesCountAppend(a[1..], b, pat);
    } else {
      assert a + b == b;
    }
  }

  /** Lines that lack the first character of `pat` hold no occurrence. */
  lemma {:induction false} LinesCountFree(lines: seq<string>, pat: string)
    requires |pat| > 0
    requires forall i :: 0 <= i < |lines| ==> pat[0] !in lines[i]
    ensures LinesCount(lines, pat) == 0
  {
    if |lines| > 0 {
      NotContainsFree(lines[0], pat);
      LinesCountFree(lines[1..], pat);
    }
  }

  /** A pattern without a line break occurs in joined lines as often as in
      the lines taken one by one. */
  lemma {:induction false} CountJoin(lines: seq<string>, pat: string)
    requires |pat| > 0 && '\n' !in pat
    ensures Count(Join(lines, "\n"), pat) == LinesCount(lines, pat)
  {
    if |lines| > 1 {
      CountJoin(lines[1..], pat);
      CountAroundChar(lines[0], '\n', Join(lines[1..], "\n"), pat);
    }
  }

  /** Counting over a range of lines is counting over its two halves. */
  lemma Cut(ls: seq<string>, pat: string, a: nat, b: nat, c: nat)
    requires |pat| > 0 && a <= b <= c <= |ls|
    ensures LinesCount(ls[a..c], pat) == LinesCount(ls[a..b], pat) + LinesCount(ls[b..c], pat)
  {
    assert ls[a..c] == ls[a..b] + ls[b..c];
    LinesCountAppend(ls[a..b], ls[b..c], pat);
  }

  /** A range of lines that lack the first character of `pat`. */
  lemma FreeRange(ls: seq<string>, pat: string, a: nat, b: nat)
    requires |pat| > 0 && a <= b <= |ls|
    requires forall i | a <= i < b :: pat[0] !in ls[i]
    ensures LinesCount(ls[a..b], pat) == 0
  {
    LinesCountFree(ls[a..b], pat);
  }

  /** A single line counts as itself. */
  lemma OneLine(ls: seq<string>, pat: string, k: nat)
    requires |pat| > 0 && k < |ls|
    ensures LinesCount(ls[k..k + 1], pat) == Count(ls[k], pat)
  {
    assert ls[k..k + 1] == [ls[k]];
  }

  lemma CountUpperRows(ls: seq<string>, pat: string)
    requires BracesOnRows(ls) && OpensWithBrace(pat)
    ensures LinesCount(ls[..21], pat) == Count(ls[11], pat) + Count(ls[20], pat)
  {
    assert ls[0..21] == ls[..21];
    Cut(ls, pat, 0, 11, 21);  FreeRange(ls, pat, 0, 11);
    Cut(ls, pat, 11, 12, 21); OneLine(ls, pat, 11);
    Cut(ls, pat, 12, 20, 21); FreeRange(ls, pat, 12, 20);
    OneLine(ls, pat, 20);
  }

  lemma CountLowerRows(ls: seq<string>, pat: string)
    requires BracesOnRows(ls) && OpensWithBrace(pat)
    ensures LinesCount(ls[21..], pat)
         == Count(ls[29], pat) + Count(ls[30], pat) + Count(ls[35], pat)
  {
    assert ls[21..37] == ls[21..];
    Cut(ls, pat, 21, 31, 37);
    CountTlsRows(ls, pat);
    CountAuthRows(ls, pat);
  }

  lemma CountTlsRows(ls: seq<string>, pat: string)
    requires BracesOnRows(ls) && OpensWithBrace(pat)
    ensures LinesCount(ls[21..31], pat) == Count(ls[29], pat) + Count(ls[30], pat)
  {
    Cut(ls, pat, 21, 29, 31); FreeRange(ls, pat, 21, 29);
    Cut(ls, pat, 29, 30, 31); OneLine(ls, pat, 29);
    OneLine(ls, pat, 30);
  }

  lemma CountAuthRows(ls: seq<string>, pat: string)
    requires BracesOnRows(ls) && OpensWithBrace(pat)
    ensures LinesCount(ls[31..37], pat) == Count(ls[35], pat)
  {
    Cut(ls, pat, 31, 35, 37); FreeRange(ls, pat, 31, 35);
    Cut(ls, pat, 35, 36, 37); OneLine(ls, pat, 35);
    FreeRange(ls, pat, 36, 37);
  }

  /** A pattern that starts with '{' and holds no line break occurs in the
      joined lines only on the placeholder rows. */
  lemma CountByRows(ls: seq<string>, pat: string)
    requires BracesOnRows(ls)
    requires OpensWithBrace(pat) && '\n' !in pat
    ensures Count(Join(ls, "\n"), pat)
         == Count(ls[11], pat) + Count(ls[20], pat) + Count(ls[29], pat)
          + Count(ls[30], pat) + Count(ls[35], pat)
  {
    CountJoin(ls, pat);
    assert ls == ls[..21] + ls[21..];
    LinesCountAppend(ls[..21], ls[21..], pat);
    CountUpperRows(ls, pat);
    CountLowerRows(ls, pat);
  }

  // --------------------------------------------- a placeholder in a row

  /** Two different placeholder names differ in their second character
      ("addr", "data", "auth", "certs"). */
  lemma NamesDiffer(p: Placeholder, q: Placeholder)
    requires p != q
    ensures Name(p)[1] != Name(q)[1]
  {
  }

  /** A token `{{nq}}` followed by text without '{' holds no token
      `{{np}}` whose name differs from `nq` in the second character. */
  lemma NamedTokenHoldsNoOther(nq: string, suffix: string, np: string)
    requires |nq| >= 2 && |np| >= 2 && '{' !in nq && '{' !in suffix && nq[1] != np[1]
    ensures !Contains("{{" + nq + "}}" + suffix, "{{" + np + "}}")
  {
    var s := "{{" + nq + "}}" + suffix;
    var t := "{{" + np + "}}";
    var rest := nq + "}}" + suffix;
    assert s == "{{" + rest;
    assert '{' !in rest;
    NotContainsFree(rest, t);
    assert s[1..][1..] == rest;
    assert s[1..][1] == nq[0] != '{' == t[1];
    assert s[3] == nq[1] != np[1] == t[3];
    if |s| >= |t| {
      assert s[..|t|][3] != t[3];
    }
    if |s[1..]| >= |t| {
      assert s[1..][..|t|][1] != t[1];
    }
  }

  /** A placeholder token followed by text without '{' holds no other
      placeholder's token. */
  lemma TokenHoldsNoOther(q: Placeholder, suffix: string, p: Placeholder)
    requires p != q && '{' !in suffix
    ensures !Contains(Token(q) + suffix, Token(p))
  {
    NamesDiffer(p, q);
    NamedTokenHoldsNoOther(Name(q), suffix, Name(p));
  }

  /** A row holds its own placeholder once and no other. */
  lemma CountInRow(prefix: string, q: Placeholder, suffix: string, p: Placeholder)
    requires '{' !in prefix && '{' !in suffix
    ensures Count(prefix + Token(q) + suffix, Token(p)) == if p == q then 1 else 0
  {
    if p == q {
      CountOwnToken(prefix, q, suffix);
    } else {
      CountOtherToken(prefix, q, suffix, p);
    }
  }

  /** The token of a row's own placeholder occurs in it once. */
  lemma CountOwnToken(prefix: string, q: Placeholder, suffix: string)
    requires '{' !in prefix && '{' !in suffix
    ensures Count(prefix + Token(q) + suffix, Token(q)) == 1
  {
    FreePrefixCount(prefix, Token(q) + suffix, Token(q));
    assert prefix + Token(q) + suffix == prefix + (Token(q) + suffix);
    var s := Token(q) + suffix;
    assert s[..|Token(q)|] == Token(q) && s[|Token(q)|..] == suffix;
    NotContainsFree(suffix, Token(q));
  }

  /** The token of another placeholder does not occur in a row. */
  lemma CountOtherToken(prefix: string, q: Placeholder, suffix: string, p: Placeholder)
    requires '{' !in prefix && '{' !in suffix && p != q
    ensures Count(prefix + Token(q) + suffix, Token(p)) == 0
  {
    FreePrefixCount(prefix, Token(q) + suffix, Token(p));
    assert prefix + Token(q) + suffix == prefix + (Token(q) + suffix);
    TokenHoldsNoOther(q, suffix, p);
  }

  /** A row holds one "{{", the one opening its placeholder. */
  lemma {:induction false} BracesInRow(prefix: string, q: Placeholder, suffix: string)
    requires '{' !in prefix && '{' !in suffix
    ensures Count(prefix + Token(q) + suffix, "{{") == 1
  {
    FreePrefixCount(prefix, Token(q) + suffix, "{{");
    assert prefix + Token(q) + suffix == prefix + (Token(q) + suffix);
    var s := Token(q) + suffix;
    var rest := Name(q) + "}}" + suffix;
    assert s[..2] == "{{" && s[2..] == rest;
    NotContainsFree(rest, "{{");
  }

  // ------------------------------------------------------- the template

  /** In lines of the template's shape each placeholder occurs as often as
      rows hold it: `{{certs}}` twice, the others once. */
  lemma ShapedCount(ls: seq<string>, p: Placeholder)
    requires Shaped(ls)
    ensures Count(Join(ls, "\n"), Token(p)) == if p == Certs then 2 else 1
  {
    TokenShape(p);
    CountByRows(ls, Token(p));
    ShapedRowCount(ls, 11, p);
    ShapedRowCount(ls, 20, p);
    ShapedRowCount(ls, 29, p);
    ShapedRowCount(ls, 30, p);
    ShapedRowCount(ls, 35, p);
  }

  /** A placeholder row of lines of the template's shape holds its own
      placeholder once and no other. */
  lemma ShapedRowCount(ls: seq<string>, i: int, p: Placeholder)
    requires Shaped(ls) && IsPlaceholderRow(i)
    ensures Count(ls[i], Token(p)) == if p == RowAt(i).placeholder then 1 else 0
  {
    RowBraces(i);
    CountInRow(RowAt(i).prefix, RowAt(i).placeholder, RowAt(i).suffix, p);
  }

  /** A pattern that starts with '{'. */
  predicate OpensWithBrace(pat: string)
  {
    |pat| > 0 && pat[0] == '{'
  }

  /** A placeholder starts with '{' and holds no line break. */
  lemma TokenShape(p: Placeholder)
    ensures OpensWithBrace(Token(p)) && '\n' !in Token(p)
  {
    assert forall ch :: ch in Token(p) ==> ch in "{{" || ch in Name(p) || ch in "}}";
  }

  /** In lines of the template's shape "{{" occurs once per row. */
  lemma ShapedBraces(ls: seq<string>)
    requires Shaped(ls)
    ensures Count(Join(ls, "\n"), "{{") == 5
  {
    CountByRows(ls, "{{");
    forall i | IsPlaceholderRow(i) ensures Count(ls[i], "{{") == 1 {
      RowBraces(i);
      BracesInRow(RowAt(i).prefix, RowAt(i).placeholder, RowAt(i).suffix);
    }
  }

  /** `{{data}}`, `{{addr}}` and `{{auth}}` occur once in the template and
      `{{certs}}` twice, and a left-to-right scan finds five "{{". `Count`
      skips over each match, so it is `LinesShaped`, which keeps '{' off
      every other line, that rules out any further "{{", overlapping ones
      such as "{{{" included. */
  lemma TemplatePlaceholders()
    ensures Count(Template, Token(Data)) == 1
    ensures Count(Template, Token(Addr)) == 1
    ensures Count(Template, Token(Auth)) == 1
    ensures Count(Template, Token(Certs)) == 2
    ensures Count(Template, "{{") == 5
  {
    LinesShaped();
    ShapedCount(Lines, Data);
    ShapedCount(Lines, Addr);
    ShapedCount(Lines, Auth);
    ShapedCount(Lines, Certs);
    ShapedBraces(Lines);
  }

  /** The template is its 37 lines, none holding a line break, so
      `Template.split("\n")` gives them back. */
  lemma TemplateLines()
    ensures Split(Template, "\n") == Lines
  {
    LinesShaped();
    SplitJoin(Lines, '\n');
  }

  /** Where the placeholders stand in the template's lines: `{{data}}` is
      the value of `storage.filesystem.rootdirectory`, `{{addr}}` that of
      `http.addr`, `{{auth}}` is followed by `/htpasswd` in
      `auth.htpasswd.path`, and both `{{certs}}` are on lines of the
      commented-out `tls` block. By `TemplateLines` these are the lines of
      `Template.split("\n")`. */
  lemma PlaceholderRows()
    ensures |Lines| == 37
    ensures Lines[11] == "    rootdirectory: " + Token(Data)
    ensures Lines[20] == "  addr: " + Token(Addr)
    ensures Lines[28] == "  # tls:"
    ensures Lines[29] == "  #   certificate: " + Token(Certs) + "/domain.crt"
    ensures Lines[30] == "  #   key: " + Token(Certs) + "/domain.key"
    ensures Lines[35] == "    path: " + Token(Auth) + "/htpasswd"
  {
    LinesWithPlaceholders();
    TlsLine();
  }
}
