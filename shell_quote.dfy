/** How the main process puts the administrator password into a shell
    command: it escapes every single quote and wraps the result in single
    quotes. The decoder below reads a shell word the way section 2.2
    ("Quoting") of the POSIX Shell Command Language does, for the quoting
    forms the escaped password uses. */
module ShellQuote {
  import opened Common

  /** `password.replace(/'/g, "'\\''")`: each single quote becomes the four
      characters quote, backslash, quote, quote. */
  function EscapePassword(p: string): string {
    if p == [] then []
    else (if p[0] == '\'' then "'\\''" else [p[0]]) + EscapePassword(p[1..])
  }

  /** The password as it stands in the command: `'${escapedPassword}'`. */
  function Quoted(p: string): string {
    "'" + EscapePassword(p) + "'"
  }

  function CountQuotes(p: string): nat {
    if p == [] then 0 else (if p[0] == '\'' then 1 else 0) + CountQuotes(p[1..])
  }

  /** Escaping adds three characters per quote and nothing else. */
  lemma {:induction false} EscapeLength(p: string)
    ensures |EscapePassword(p)| == |p| + 3 * CountQuotes(p)
  {
    if p != [] {
      EscapeLength(p[1..]);
    }
  }

  /** A password without a quote is put into the command unchanged. */
  lemma {:induction false} EscapeWithoutQuotes(p: string)
    requires '\'' !in p
    ensures EscapePassword(p) == p
  {
    if p != [] {
      assert '\'' !in p[1..];
      EscapeWithoutQuotes(p[1..]);
    }
  }

  /** Characters that end or change an unquoted shell word: blanks, newline,
      control and redirection operators, and the characters that start an
      expansion, double quoting, a comment or a pattern. */
  predicate IsShellSpecial(c: char) {
    c in " \t\n;&|<>()$`\"*?[#~"
  }

  /** `prefix` followed by the value of the rest of the word, if it has one. */
  function Prepend(prefix: string, rest: Option<string>): Option<string> {
    match rest
    case Some(r) => Some(prefix + r)
    case None => None
  }

  /** The value of a shell word built from ordinary characters, backslash
      escapes (section 2.2.1) and single-quoted strings (section 2.2.2), or
      None when the text is not one such word: an unterminated quote, a
      trailing backslash, or an unquoted special character. */
  function Unquote(w: string): Option<string>
    decreases |w|
  {
    if w == [] then Some([])
    else if w[0] == '\'' then
      if '\'' in w[1..] then
        var j := IndexOf(w[1..], '\'');
        Prepend(w[1..j + 1], Unquote(w[j + 2..]))
      else None
    else if w[0] == '\\' then
      if |w| < 2 then None
      else if w[1] == '\n' then Unquote(w[2..])
      else Prepend([w[1]], Unquote(w[2..]))
    else if IsShellSpecial(w[0]) then None
    else Prepend([w[0]], Unquote(w[1..]))
  }

  /** A single-quoted string keeps every character up to the closing quote. */
  lemma UnquoteSingleQuoted(q: string, rest: string)
    requires '\'' !in q
    ensures Unquote("'" + q + "'" + rest) == Prepend(q, Unquote(rest))
  {
    var w := "'" + q + "'" + rest;
    assert w[1..] == q + "'" + rest;
    IndexOfIsFirst(w[1..], '\'', |q|);
    assert w[1..|q| + 1] == q;
    assert w[|q| + 2..] == rest;
  }

  /** A backslash outside quotes keeps the character after it. */
  lemma UnquoteBackslash(c: char, rest: string)
    requires c != '\n'
    ensures Unquote("\\" + [c] + rest) == Prepend([c], Unquote(rest))
  {
    var w := "\\" + [c] + rest;
    assert w[2..] == rest;
  }

  /** Inside an open single-quoted string that already holds `q`, the escaped
      password and a closing quote read back as `q` followed by the password. */
  lemma {:induction false} UnquoteEscapedFrom(q: string, p: string)
    requires '\'' !in q
    ensures Unquote("'" + q + EscapePassword(p) + "'") == Some(q + p)
    decreases |p|
  {
    if p == [] {
      UnquoteSingleQuoted(q, []);
      assert "'" + q + EscapePassword(p) + "'" == "'" + q + "'" + [];
    } else if p[0] != '\'' {
      UnquoteEscapedFrom(q + [p[0]], p[1..]);
      EscapeOrdinary(q, p);
    } else {
      var tail := "'" + [] + EscapePassword(p[1..]) + "'";
      EscapeQuote(q, p);
      UnquoteSingleQuoted(q, "\\" + ['\''] + tail);
      UnquoteBackslash('\'', tail);
      UnquoteEscapedFrom([], p[1..]);
    }
  }

  lemma EscapeOrdinary(q: string, p: string)
    requires p != [] && p[0] != '\''
    ensures "'" + q + EscapePassword(p) + "'" == "'" + (q + [p[0]]) + EscapePassword(p[1..]) + "'"
    ensures (q + [p[0]]) + p[1..] == q + p
  {
    var e := EscapePassword(p[1..]);
    assert EscapePassword(p) == [p[0]] + e;
    Assoc("'" + q, [p[0]], e);
    Assoc("'", q, [p[0]]);
    Assoc(q, [p[0]], p[1..]);
    assert [p[0]] + p[1..] == p;
  }

  lemma EscapeQuote(q: string, p: string)
    requires p != [] && p[0] == '\''
    ensures "'" + q + EscapePassword(p) + "'"
         == "'" + q + "'" + ("\\" + ['\''] + ("'" + [] + EscapePassword(p[1..]) + "'"))
    ensures q + (['\''] + ([] + p[1..])) == q + p
  {
    var e := EscapePassword(p[1..]);
    assert EscapePassword(p) == "'\\''" + e;
    var n := |q|;
    var lhs := "'" + q + EscapePassword(p) + "'";
    var rhs := "'" + q + "'" + ("\\" + ['\''] + ("'" + [] + e + "'"));
    assert |lhs| == |rhs| == n + |e| + 6;
    forall k | 0 <= k < |lhs|
      ensures lhs[k] == rhs[k]
    {
      if k < n + 5 {
      } else {
        assert lhs[k] == (EscapePassword(p) + "'")[k - n - 1];
      }
    }
    assert [] + p[1..] == p[1..] && ['\''] + p[1..] == p;
  }

  /** Escaping is correct: the shell reads the quoted escaped password as one
      word whose value is exactly the password, whatever it contains. */
  lemma QuotedRoundTrip(p: string)
    ensures Unquote(Quoted(p)) == Some(p)
  {
    UnquoteEscapedFrom([], p);
    assert "'" + [] + EscapePassword(p) + "'" == Quoted(p);
    assert [] + p == p;
  }
}
