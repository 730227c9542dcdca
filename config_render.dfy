/** How the action fills in the configuration template before writing
    config.yml (src/main.ts:55-59): four global replacements, one per
    placeholder, with fixed values. The `port` input plays no part in it:
    the registry always listens on `:5000` inside its container. */
module RegistryConfig {
  import opened JsStrings
  import opened ConfigYml

  /** The text that replaces each placeholder. */
  function Value(p: Placeholder): (v: string)
    ensures |v| > 0 && (v[0] == ':' || v[0] == '/')
    ensures '{' !in v && '\n' !in v
  {
    match p
    case Addr => ":5000"
    case Data => "/var/lib/registry"
    case Auth => "/auth"
    case Certs => "/certs"
  }

  /** Neither ':' nor '/' appears in a placeholder token. */
  lemma TokenLacks(q: Placeholder, ch: char)
    requires ch == ':' || ch == '/'
    ensures ch !in Token(q)
  {
    assert ch !in Name(q);
    assert forall c :: c in Token(q) ==> c in "{{" || c in Name(q) || c in "}}";
  }

  /** No placeholder token holds a line break. */
  lemma TokenLacksBreak(q: Placeholder)
    ensures '\n' !in Token(q)
  {
    assert forall c :: c in Token(q) ==> c in "{{" || c in Name(q) || c in "}}";
  }

  /** One `.replace(/{{name}}/g, value)` step. It leaves no occurrence of
      its own placeholder and brings back none of the others. */
  function Fill(s: string, p: Placeholder): (r: string)
    ensures !Contains(r, Token(p))
    ensures forall q :: !Contains(s, Token(q)) ==> !Contains(r, Token(q))
  {
    forall q | q == p || !Contains(s, Token(q))
      ensures !Contains(ReplaceAll(s, Token(p), Value(p)), Token(q))
    {
      TokenLacks(q, Value(p)[0]);
      LeavesNoOccurrence(s, Token(p), Value(p), Token(q));
    }
    ReplaceAll(s, Token(p), Value(p))
  }

  /** The rendered configuration text: the template's placeholders filled
      in the order `addr`, `data`, `auth`, `certs`. No placeholder is left
      in the result. */
  function Render(t: string): (r: string)
    ensures forall p :: !Contains(r, Token(p))
  {
    Fill(Fill(Fill(Fill(t, Addr), Data), Auth), Certs)
  }

  /** Rendering a text that holds no placeholder leaves it as it is. */
  lemma RenderUnchanged(t: string)
    requires forall p :: !Contains(t, Token(p))
    ensures Render(t) == t
  {
  }

  /** Rendering is idempotent. */
  lemma RenderIdempotent(t: string)
    ensures Render(Render(t)) == Render(t)
  {
    RenderUnchanged(Render(t));
  }

  /** A text without '{' holds no placeholder and is left as it is. */
  lemma RenderBraceFree(t: string)
    requires '{' !in t
    ensures Render(t) == t
  {
    forall p ensures !Contains(t, Token(p)) {
      NotContainsFree(t, Token(p));
    }
    RenderUnchanged(t);
  }

  /** A placeholder never spans a line break, so one replacement step is
      done on each side of a "\n" apart. */
  lemma FillAroundBreak(a: string, b: string, p: Placeholder)
    ensures Fill(a + "\n" + b, p) == Fill(a, p) + "\n" + Fill(b, p)
  {
    TokenLacksBreak(p);
    AroundChar(a, '\n', b, Token(p), Value(p));
  }

  /** Rendering two lines joined by "\n" renders each. */
  lemma RenderAroundBreak(a: string, b: string)
    ensures Render(a + "\n" + b) == Render(a) + "\n" + Render(b)
  {
    FillAroundBreak(a, b, Addr);
    var a1, b1 := Fill(a, Addr), Fill(b, Addr);
    FillAroundBreak(a1, b1, Data);
    var a2, b2 := Fill(a1, Data), Fill(b1, Data);
    FillAroundBreak(a2, b2, Auth);
    var a3, b3 := Fill(a2, Auth), Fill(b2, Auth);
    FillAroundBreak(a3, b3, Certs);
  }

  /** Each line rendered on its own. */
  function RenderEach(lines: seq<string>): (r: seq<string>)
    ensures |r| == |lines|
    ensures forall i :: 0 <= i < |lines| ==> r[i] == Render(lines[i])
  {
    if |lines| == 0 then [] else [Render(lines[0])] + RenderEach(lines[1..])
  }

  /** Rendering a text made of lines renders it line by line. */
  lemma {:induction false} RenderJoin(lines: seq<string>)
    ensures Render(Join(lines, "\n")) == Join(RenderEach(lines), "\n")
  {
    if |lines| == 0 {
      RenderBraceFree([]);
    } else if |lines| > 1 {
      RenderJoin(lines[1..]);
      RenderAroundBreak(lines[0], Join(lines[1..], "\n"));
    }
  }

  /** A replacement step leaves text without '{' as it is. */
  lemma FillBraceFree(s: string, p: Placeholder)
    requires '{' !in s
    ensures Fill(s, p) == s
  {
    NotContainsFree(s, Token(p));
  }

  /** Replacing `t` in a row whose token is `tq`, surrounded by text
      without '{': the row's own token is replaced by `v`, any other token
      leaves the row as it is. */
  lemma ReplaceInRow(prefix: string, tq: string, suffix: string, t: string, v: string)
    requires '{' !in prefix && '{' !in suffix && |t| > 0 && t[0] == '{'
    requires t == tq || !Contains(tq + suffix, t)
    ensures ReplaceAll(prefix + tq + suffix, t, v)
         == if t == tq then prefix + v + suffix else prefix + tq + suffix
  {
    var s := tq + suffix;
    FreePrefix(prefix, s, t, v);
    assert prefix + tq + suffix == prefix + s;
    if t == tq {
      assert s[..|t|] == t && s[|t|..] == suffix;
      NotContainsFree(suffix, t);
    }
  }

  /** One replacement step on a row: its own placeholder is replaced by
      the value, any other step leaves the row as it is. */
  lemma FillRow(prefix: string, q: Placeholder, suffix: string, p: Placeholder)
    requires '{' !in prefix && '{' !in suffix
    ensures Fill(prefix + Token(q) + suffix, p)
         == if p == q then prefix + Value(q) + suffix else prefix + Token(q) + suffix
  {
    if p != q {
      TokenHoldsNoOther(q, suffix, p);
    }
    ReplaceInRow(prefix, Token(q), suffix, Token(p), Value(p));
  }

  /** A replacement step on a row or on its rendered form. */
  lemma FillStep(prefix: string, q: Placeholder, suffix: string, x: string, p: Placeholder)
    requires '{' !in prefix && '{' !in suffix
    requires x == prefix + Token(q) + suffix || x == prefix + Value(q) + suffix
    ensures Fill(x, p) == if x == prefix + Value(q) + suffix || p == q
                          then prefix + Value(q) + suffix else x
  {
    var w := prefix + Value(q) + suffix;
    if x == w {
      assert '{' !in w by {
        assert forall c :: c in w ==> c in prefix || c in Value(q) || c in suffix;
      }
      FillBraceFree(w, p);
    } else {
      FillRow(prefix, q, suffix, p);
    }
  }

  /** A row whose placeholder is surrounded by text without '{' renders to
      the same text with the placeholder's value in its place. */
  lemma RenderRow(prefix: string, q: Placeholder, suffix: string)
    requires '{' !in prefix && '{' !in suffix
    ensures Render(prefix + Token(q) + suffix) == prefix + Value(q) + suffix
  {
    var x0 := prefix + Token(q) + suffix;
    FillStep(prefix, q, suffix, x0, Addr);
    var x1 := Fill(x0, Addr);
    FillStep(prefix, q, suffix, x1, Data);
    var x2 := Fill(x1, Data);
    FillStep(prefix, q, suffix, x2, Auth);
    var x3 := Fill(x2, Auth);
    FillStep(prefix, q, suffix, x3, Certs);
  }

  // ------------------------------------------------ the rendered template

  /** Template lines with each placeholder row's placeholder replaced by
      its value; the other lines as they are. */
  function FilledLines(ls: seq<string>): (r: seq<string>)
    ensures |r| == |ls|
  {
    seq(|ls|, i requires 0 <= i < |ls| =>
      if IsPlaceholderRow(i) then RowAt(i).prefix + Value(RowAt(i).placeholder) + RowAt(i).suffix
      else ls[i])
  }

  /** A placeholder row, filled in, holds neither '{' nor a line break. */
  lemma FilledRowFree(i: int)
    requires IsPlaceholderRow(i)
    ensures '{' !in RowAt(i).prefix + Value(RowAt(i).placeholder) + RowAt(i).suffix
    ensures '\n' !in RowAt(i).prefix + Value(RowAt(i).placeholder) + RowAt(i).suffix
  {
    var row := RowAt(i);
    RowBraces(i);
    RowBreaks(i);
    assert '\n' !in row.prefix && '\n' !in row.suffix by {
      assert forall c :: c in row.prefix || c in row.suffix ==> c in RowText(row);
    }
    assert forall c :: c in row.prefix + Value(row.placeholder) + row.suffix ==>
      c in row.prefix || c in Value(row.placeholder) || c in row.suffix;
  }

  /** Lines of the template's shape render, one by one, to the filled
      lines, and none of those holds '{' or a line break. */
  lemma ShapedRender(ls: seq<string>)
    requires Shaped(ls)
    ensures RenderEach(ls) == FilledLines(ls)
    ensures forall i :: 0 <= i < |ls| ==> '{' !in FilledLines(ls)[i] && '\n' !in FilledLines(ls)[i]
  {
    forall i | 0 <= i < |ls|
      ensures Render(ls[i]) == FilledLines(ls)[i]
      ensures '{' !in FilledLines(ls)[i] && '\n' !in FilledLines(ls)[i]
    {
      if IsPlaceholderRow(i) {
        RowBraces(i);
        RenderRow(RowAt(i).prefix, RowAt(i).placeholder, RowAt(i).suffix);
        FilledRowFree(i);
      } else {
        RenderBraceFree(ls[i]);
      }
    }
  }

  /** Joined parts hold a character only if a part or the separator
      does. */
  lemma {:induction false} JoinLacks(parts: seq<string>, sep: string, c: char)
    requires c !in sep
    requires forall i :: 0 <= i < |parts| ==> c !in parts[i]
    ensures c !in Join(parts, sep)
  {
    if |parts| > 1 {
      JoinLacks(parts[1..], sep, c);
    }
  }

  /** The rendered configuration is the filled template lines joined by
      "\n", so splitting it at line breaks gives those lines back; and it
      holds no '{' at all, so in particular no placeholder and no "{{". */
  lemma RenderTemplate()
    ensures Render(Template) == Join(FilledLines(Lines), "\n")
    ensures Split(Render(Template), "\n") == FilledLines(Lines)
    ensures '{' !in Render(Template)
  {
    LinesShaped();
    RenderShaped(Lines, Template);
  }

  /** Rendering a text whose lines have the template's shape. */
  lemma RenderShaped(ls: seq<string>, t: string)
    requires Shaped(ls) && t == Join(ls, "\n")
    ensures Render(t) == Join(FilledLines(ls), "\n")
    ensures Split(Render(t), "\n") == FilledLines(ls)
    ensures '{' !in Render(t)
  {
    RenderJoin(ls);
    ShapedRender(ls);
    SplitJoin(FilledLines(ls), '\n');
    JoinLacks(FilledLines(ls), "\n", '{');
  }

  /** Rendering leaves every line of the template that holds no
      placeholder as it is. */
  lemma RenderKeepsOtherLines()
    ensures |Split(Render(Template), "\n")| == |Lines|
    ensures forall i | 0 <= i < |Lines| && !IsPlaceholderRow(i) ::
      Split(Render(Template), "\n")[i] == Lines[i]
  {
    RenderTemplate();
    KeptLines(Lines, Render(Template));
  }

  /** A text whose lines are the filled lines has the other lines as
      they are. */
  lemma KeptLines(ls: seq<string>, t: string)
    requires Split(t, "\n") == FilledLines(ls)
    ensures |Split(t, "\n")| == |ls|
    ensures forall i | 0 <= i < |ls| && !IsPlaceholderRow(i) :: Split(t, "\n")[i] == ls[i]
  {
  }

  lemma FilledRow11(ls: seq<string>)
    requires |ls| == 37
    ensures FilledLines(ls)[11] == "    rootdirectory: /var/lib/registry"
  {
  }

  lemma FilledRow20(ls: seq<string>)
    requires |ls| == 37
    ensures FilledLines(ls)[20] == "  addr: :5000"
  {
  }

  lemma FilledRow29(ls: seq<string>)
    requires |ls| == 37
    ensures FilledLines(ls)[29] == "  #   certificate: /certs/domain.crt"
  {
  }

  lemma FilledRow30(ls: seq<string>)
    requires |ls| == 37
    ensures FilledLines(ls)[30] == "  #   key: /certs/domain.key"
  {
  }

  lemma FilledRow35(ls: seq<string>)
    requires |ls| == 37
    ensures FilledLines(ls)[35] == "    path: /auth/htpasswd"
  {
  }

  /** The placeholder rows of a text whose lines are the filled lines,
      and the `tls:` line. */
  lemma FilledText(ls: seq<string>, t: string)
    requires |ls| == 37 && ls[28] == "  # tls:"
    requires Split(t, "\n") == FilledLines(ls)
    ensures Split(t, "\n")[11] == "    rootdirectory: /var/lib/registry"
    ensures Split(t, "\n")[20] == "  addr: :5000"
    ensures Split(t, "\n")[28] == "  # tls:"
    ensures Split(t, "\n")[29] == "  #   certificate: /certs/domain.crt"
    ensures Split(t, "\n")[30] == "  #   key: /certs/domain.key"
    ensures Split(t, "\n")[35] == "    path: /auth/htpasswd"
  {
    FilledRow11(ls);
    FilledRow20(ls);
    FilledRow29(ls);
    FilledRow30(ls);
    FilledRow35(ls);
  }

  /** The lines of the rendered configuration where the template had
      placeholders, and the `tls:` line before the certificate lines:
      - `storage.filesystem.rootdirectory` is the registry's data directory
        inside its container;
      - `http.addr` is `:5000`, whatever the `port` input;
      - `auth.htpasswd.path` is the htpasswd file in the mounted auth
        directory;
      - the `tls` block stays commented out: the `tls:` line is unchanged
        and both lines that held `{{certs}}` keep their leading "#". */
  lemma RenderedLines()
    ensures |Split(Render(Template), "\n")| == 37
    ensures Split(Render(Template), "\n")[11] == "    rootdirectory: /var/lib/registry"
    ensures Split(Render(Template), "\n")[20] == "  addr: :5000"
    ensures Split(Render(Template), "\n")[28] == "  # tls:"
    ensures Split(Render(Template), "\n")[29] == "  #   certificate: /certs/domain.crt"
    ensures Split(Render(Template), "\n")[30] == "  #   key: /certs/domain.key"
    ensures Split(Render(Template), "\n")[35] == "    path: /auth/htpasswd"
  {
    RenderTemplate();
    LinesWithoutPlaceholders();
    TlsLine();
    FilledText(Lines, Render(Template));
  }
}
