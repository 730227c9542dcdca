/** The htpasswd file the registry's basic authentication reads
    (`generateHtpasswdString`, src/main.ts:155-172): one line per user,
    each the trimmed output of `htpasswd -Bbn <username> <password>` run in
    an `httpd:2` container, joined with "\n". The container run is the
    parameter `hash`: what it prints for a username and a password. */
module Htpasswd {
  import opened JsStrings
  import opened Users

  /** The lines of the file, one per user and in user order: each is what
      `hash` prints for that user, trimmed of surrounding white space. */
  function HtpasswdLines(users: seq<Credential>, hash: (string, string) -> string): (lines: seq<string>)
    ensures |lines| == |users|
    ensures forall i :: 0 <= i < |users| ==>
      lines[i] == Trim(hash(users[i].username, users[i].password))
  {
    seq(|users|, i requires 0 <= i < |users| => Trim(hash(users[i].username, users[i].password)))
  }

  /** The text of the htpasswd file. No users give the empty text; a user
      list starts with its first user's line. */
  function HtpasswdText(users: seq<Credential>, hash: (string, string) -> string): (text: string)
    ensures |users| == 0 ==> text == []
    ensures |users| > 0 ==> Trim(hash(users[0].username, users[0].password)) <= text
  {
    Join(HtpasswdLines(users, hash), "\n")
  }

  /** When no user's trimmed line holds a line break, the file has exactly
      one line per user, in user order: splitting it at "\n" gives the
      lines back. */
  lemma HtpasswdSplit(users: seq<Credential>, hash: (string, string) -> string)
    requires |users| >= 1
    requires forall i :: 0 <= i < |users| ==> '\n' !in Trim(hash(users[i].username, users[i].password))
    ensures Split(HtpasswdText(users, hash), "\n") == HtpasswdLines(users, hash)
    ensures |Split(HtpasswdText(users, hash), "\n")| == |users|
  {
    SplitJoin(HtpasswdLines(users, hash), '\n');
  }

  /** Adding a user at the end adds its line at the end of the file, after
      a "\n". */
  lemma {:induction false} HtpasswdAppend(users: seq<Credential>, u: Credential, hash: (string, string) -> string)
    requires |users| >= 1
    ensures HtpasswdText(users + [u], hash)
         == HtpasswdText(users, hash) + "\n" + Trim(hash(u.username, u.password))
  {
    var lines := HtpasswdLines(users, hash);
    var line := Trim(hash(u.username, u.password));
    assert HtpasswdLines(users + [u], hash) == lines + [line];
    JoinAppend(lines, line, "\n");
  }

  /** A line printed with white space around it, such as the line break
      and empty line `htpasswd -n` ends with, is stored without it. */
  lemma PaddedOutput(users: seq<Credential>, hash: (string, string) -> string, i: nat, a: string, line: string, b: string)
    requires i < |users|
    requires hash(users[i].username, users[i].password) == a + line + b
    requires AllWhiteSpace(a) && AllWhiteSpace(b)
    requires |line| > 0 && !IsWhiteSpace(line[0]) && !IsWhiteSpace(line[|line| - 1])
    ensures HtpasswdLines(users, hash)[i] == line
  {
    TrimPadded(a, line, b);
  }
}
