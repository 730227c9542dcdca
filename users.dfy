/** The `users` input of the action: a comma-separated list of
    `username:password` entries, turned into credentials by
    `split(",")`, `filter(Boolean)` and, per entry, `indexOf(":")` and two
    `slice` calls (src/main.ts:29-32). */
module Users {
  import opened JsStrings

  /** One user of the registry's basic authentication. */
  datatype Credential = Credential(username: string, password: string)

  /** One entry cut at its first ':' by `v.slice(0, v.indexOf(":"))` and
      `v.slice(v.indexOf(":") + 1)`. With a ':' the username is the text
      before the first one and the password all the text after it, so the
      two put back together around a ':' give the entry. Without a ':'
      `indexOf` answers -1, so the username is `slice(0, -1)`, the entry
      without its last character, and the password is `slice(0)`, the whole
      entry. */
  function ParseEntry(v: string): (c: Credential)
    ensures ':' in v ==> ':' !in c.username && c.username + ":" + c.password == v
    ensures ':' !in v ==> c.password == v
    ensures ':' !in v && |v| > 0 ==> c.username == v[..|v| - 1]
    ensures ':' !in v && |v| == 0 ==> c.username == []
  {
    var i := IndexOf(v, ':');
    Credential(Slice(v, 0, i), SliceFrom(v, i + 1))
  }

  /** The parts of a list that are not empty, in order: `filter(Boolean)`
      on strings. */
  function NonEmpty(parts: seq<string>): (r: seq<string>)
    ensures forall i :: 0 <= i < |r| ==> |r[i]| > 0 && r[i] in parts
    ensures forall i :: 0 <= i < |parts| && |parts[i]| > 0 ==> parts[i] in r
    ensures |r| <= |parts|
  {
    if |parts| == 0 then []
    else
      var rest := NonEmpty(parts[1..]);
      assert parts == [parts[0]] + parts[1..];
      if |parts[0]| > 0 then [parts[0]] + rest else rest
  }

  /** `filter(Boolean)` keeps the non-empty parts of both halves of a
      list. */
  lemma {:induction false} NonEmptyAppend(a: seq<string>, b: seq<string>)
    ensures NonEmpty(a + b) == NonEmpty(a) + NonEmpty(b)
  {
    if |a| > 0 {
      assert (a + b)[1..] == a[1..] + b;
      NonEmptyAppend(a[1..], b);
    } else {
      assert a + b == b;
    }
  }

  /** The entries of a `users` input: its non-empty ','-separated
      segments, in input order. None is empty and none holds a ','. */
  function Entries(users: string): (entries: seq<string>)
    ensures forall i :: 0 <= i < |entries| ==> |entries[i]| > 0 && ',' !in entries[i]
  {
    var parts := Split(users, ",");
    forall i | 0 <= i < |parts| ensures ',' !in parts[i] {
      ContainsChar(parts[i], ',');
    }
    NonEmpty(parts)
  }

  /** The credentials of a `users` input, one per entry and in input
      order. No username and no password holds a ','. */
  function ParseUsers(users: string): (creds: seq<Credential>)
    ensures |creds| == |Entries(users)|
    ensures forall i :: 0 <= i < |creds| ==> creds[i] == ParseEntry(Entries(users)[i])
    ensures forall i :: 0 <= i < |creds| ==> ',' !in creds[i].username && ',' !in creds[i].password
  {
    var entries := Entries(users);
    seq(|entries|, i requires 0 <= i < |entries| =>
      var c := ParseEntry(entries[i]);
      assert ',' !in c.username && ',' !in c.password by {
        var v := entries[i];
        if ':' !in v && |v| > 0 {
          assert forall ch :: ch in v[..|v| - 1] ==> ch in v;
        }
      }
      c)
  }

  // ----------------------------------------------- the entries, by commas

  /** A text without a ',' is one entry, or none when it is empty. */
  lemma {:induction false} EntriesWithoutComma(x: string)
    requires ',' !in x
    ensures Entries(x) == if x == [] then [] else [x]
  {
    ContainsChar(x, ',');
    SplitAbsent(x, ",");
  }

  /** A ',' ends one list of entries and starts the next: the entries of
      `a + "," + b` are those of `a` followed by those of `b`. */
  lemma {:induction false} EntriesAtComma(a: string, b: string)
    ensures Entries(a + "," + b) == Entries(a) + Entries(b)
  {
    SplitAtSeparator(a, ',', b);
    NonEmptyAppend(Split(a, ","), Split(b, ","));
  }

  /** A text made only of commas. */
  predicate OnlyCommas(s: string)
  {
    forall i :: 0 <= i < |s| ==> s[i] == ','
  }

  /** Only commas make no entries. */
  lemma CommasOnly(s: string)
    requires OnlyCommas(s)
    ensures Entries(s) == []
  {
    var parts := Split(s, ",");
    SplitSeparatorsOnly(s, ',');
    NothingKept(parts);
  }

  /** Empty parts are all dropped. */
  lemma {:induction false} NothingKept(parts: seq<string>)
    requires forall i :: 0 <= i < |parts| ==> parts[i] == []
    ensures NonEmpty(parts) == []
  {
    if |parts| > 0 {
      NothingKept(parts[1..]);
    }
  }

  /** An empty `users` input, or one made only of commas, gives no
      credentials. */
  lemma NoEntries(s: string)
    requires OnlyCommas(s)
    ensures ParseUsers(s) == []
  {
    CommasOnly(s);
  }

  // ------------------------------------------------------------ round trip

  /** The `users` text for a list of credentials: `username:password`
      entries joined with ','. */
  function Format(creds: seq<Credential>): (users: string)
  {
    Join(seq(|creds|, i requires 0 <= i < |creds| => creds[i].username + ":" + creds[i].password), ",")
  }

  /** A credential whose entry parses back to it: its username has no ':'
      and neither part has a ','. */
  predicate Representable(c: Credential)
  {
    ':' !in c.username && ',' !in c.username && ',' !in c.password
  }

  /** Parsing an entry written as `username:password` gives the username
      and the password back, however many ':' the password holds. */
  lemma ParseEntryFormatted(c: Credential)
    requires ':' !in c.username
    ensures ParseEntry(c.username + ":" + c.password) == c
  {
    var v := c.username + ":" + c.password;
    var i := IndexOf(v, ':');
    assert v[|c.username|] == ':';
    assert v[..|c.username|] == c.username;
    assert i == |c.username|;
    assert v[i + 1..] == c.password;
  }

  /** Non-empty entries with no ',' are recovered, in order, from their
      ','-join. */
  lemma {:induction false} EntriesOfJoin(entries: seq<string>)
    requires forall i :: 0 <= i < |entries| ==> |entries[i]| > 0 && ',' !in entries[i]
    ensures Entries(Join(entries, ",")) == entries
  {
    if |entries| == 0 {
      EntriesWithoutComma([]);
    } else if |entries| == 1 {
      EntriesWithoutComma(entries[0]);
    } else {
      var tail := entries[1..];
      assert forall i :: 0 <= i < |tail| ==> tail[i] == entries[i + 1];
      EntriesOfJoin(tail);
      JoinedEntry(entries);
    }
  }

  /** The first entry of a join, followed by the entries of the rest. */
  lemma JoinedEntry(entries: seq<string>)
    requires |entries| > 1 && |entries[0]| > 0 && ',' !in entries[0]
    ensures Entries(Join(entries, ",")) == [entries[0]] + Entries(Join(entries[1..], ","))
  {
    EntryThenComma(entries[0], Join(entries[1..], ","));
  }

  /** A non-empty entry without ',' followed by a ',' is the first entry. */
  lemma EntryThenComma(v: string, rest: string)
    requires |v| > 0 && ',' !in v
    ensures Entries(v + "," + rest) == [v] + Entries(rest)
  {
    EntriesAtComma(v, rest);
    EntriesWithoutComma(v);
  }

  /** Parsing the `users` text of representable credentials gives back
      exactly those credentials, in order. */
  lemma ParseFormat(creds: seq<Credential>)
    requires forall i :: 0 <= i < |creds| ==> Representable(creds[i])
    ensures ParseUsers(Format(creds)) == creds
  {
    var entries := seq(|creds|, i requires 0 <= i < |creds| => creds[i].username + ":" + creds[i].password);
    forall i | 0 <= i < |entries| ensures |entries[i]| > 0 && ',' !in entries[i] {
      assert entries[i][|creds[i].username|] == ':';
    }
    EntriesOfJoin(entries);
    forall i | 0 <= i < |creds| ensures ParseEntry(entries[i]) == creds[i] {
      ParseEntryFormatted(creds[i]);
    }
  }

  /** A `users` input that is a single entry without ':' gives one
      credential whose username is the entry without its last character and
      whose password is the whole entry; commas around it are dropped. */
  lemma EntryWithoutColon(leading: string, v: string, trailing: string)
    requires OnlyCommas(leading) && OnlyCommas(trailing)
    requires |v| > 0 && ':' !in v && ',' !in v
    ensures ParseUsers(leading + v + trailing) == [Credential(v[..|v| - 1], v)]
  {
    CommasAround(leading, v, trailing);
  }

  /** Commas before and after a single entry add no entries. */
  lemma CommasAround(leading: string, v: string, trailing: string)
    requires OnlyCommas(leading) && OnlyCommas(trailing)
    requires |v| > 0 && ',' !in v
    ensures Entries(leading + v + trailing) == [v]
  {
    assert leading + v + trailing == leading + (v + trailing);
    LeadingCommas(leading, v + trailing);
    TrailingCommas(v, trailing);
  }

  /** Commas in front of a text add no entries. */
  lemma LeadingCommas(leading: string, x: string)
    requires OnlyCommas(leading)
    ensures Entries(leading + x) == Entries(x)
  {
    if |leading| > 0 {
      var l := leading[..|leading| - 1];
      assert leading + x == l + "," + x;
      EntriesAtComma(l, x);
      CommasOnly(l);
    } else {
      assert leading + x == x;
    }
  }

  /** Commas after a single entry add no entries. */
  lemma TrailingCommas(v: string, trailing: string)
    requires OnlyCommas(trailing)
    requires |v| > 0 && ',' !in v
    ensures Entries(v + trailing) == [v]
  {
    if |trailing| > 0 {
      assert v + trailing == v + "," + trailing[1..];
      EntryThenComma(v, trailing[1..]);
      CommasOnly(trailing[1..]);
    } else {
      assert v + trailing == v;
      EntriesWithoutComma(v);
    }
  }
}
