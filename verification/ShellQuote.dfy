// shQuote of internal/daemon/tunnel.go and the two commands pull builds with it,
// read back by the token rules of POSIX.1-2017, Shell Command Language, 2.2 and 2.3.

module ShellQuote {
  import opened Basics

  // ----------------------------------------------------------------- quoting

  function Quoted(s: string): string
  {
    if s == "" then "" else (if s[0] == '\'' then "'\\''" else [s[0]]) + Quoted(s[1..])
  }

  /** Single-quotes s for a POSIX shell. */
  method ShQuote(s: string) returns (out: string)
    ensures out == "'" + Quoted(s) + "'"
  {
    out := "'";
    for i := 0 to |s|
      invariant out + Quoted(s[i..]) == "'" + Quoted(s)
    {
      ghost var before := out;
      assert s[i..][0] == s[i] && s[i..][1..] == s[i + 1..];
      if s[i] == '\'' {
        out := out + "'\\''";
        assert before + Quoted(s[i..]) == out + Quoted(s[i + 1..]);
        continue;
      }
      out := out + [s[i]];
      assert before + Quoted(s[i..]) == out + Quoted(s[i + 1..]);
    }
    assert s[|s|..] == "";
    assert out == "'" + Quoted(s);
    out := out + "'";
  }

  /** The command pull runs on the remote host. */
  method RemoteCommand(path: string, dir: bool) returns (cmd: string)
    requires '\0' !in path
    ensures Lex(cmd, Blank, "", []) ==
            Some(if dir then ["tar", "-C", path, "-cf", "-", "."] else ["cat", "--", path])
  {
    var q := ShQuote(path);
    if dir {
      cmd := "tar -C " + q + " -cf - .";
      TarCommandLexes(path);
      assert cmd == "tar" + " " + ("-C" + " " + (("'" + Quoted(path) + "'") + (" " + ("-cf" + " " + ("-" + " " + ".")))));
    } else {
      cmd := "cat -- " + q;
      CatCommandLexes(path);
      assert cmd == "cat" + " " + ("--" + " " + (("'" + Quoted(path) + "'") + ""));
    }
  }

  // ------------------------------------------------------------------ lexing

  datatype Mode = Blank | Word | InQuotes | Escaped(inWord: bool)

  predicate IsBlank(c: char)
  {
    c == ' ' || c == '\t'
  }

  /** Characters with a further meaning to the shell when they are not quoted. */
  predicate IsSpecial(c: char)
  {
    c in "|&;<>()$`\"*?[#~=%{}!\n\r\0"
  }

  /** The words of a command line that uses only blanks, quotes and escapes; None
      when it needs any other rule of the shell, or when a quote is left open.
      No argument can hold a NUL. */
  function Lex(s: string, mode: Mode, word: string, words: seq<string>): Option<seq<string>>
    decreases |s|
  {
    if s == "" then
      match mode
      case Blank => Some(words)
      case Word => Some(words + [word])
      case _ => None
    else if s[0] == '\0' then None
    else
      var c, rest := s[0], s[1..];
      match mode
      case InQuotes =>
        if c == '\'' then Lex(rest, Word, word, words) else Lex(rest, InQuotes, word + [c], words)
      case Escaped(inWord) =>
        if c == '\n' then Lex(rest, if inWord then Word else Blank, word, words)
        else Lex(rest, Word, word + [c], words)
      case _ =>
        if IsBlank(c) then
          if mode.Word? then Lex(rest, Blank, "", words + [word]) else Lex(rest, Blank, "", words)
        else if c == '\'' then Lex(rest, InQuotes, word, words)
        else if c == '\\' then Lex(rest, Escaped(mode.Word?), word, words)
        else if IsSpecial(c) then None
        else Lex(rest, Word, word + [c], words)
  }

  lemma {:induction false} QuotedLexes(s: string, rest: string, word: string, words: seq<string>)
    requires '\0' !in s
    ensures Lex(Quoted(s) + "'" + rest, InQuotes, word, words) == Lex(rest, Word, word + s, words)
  {
    if s == "" {
      assert Quoted(s) + "'" + rest == "'" + rest;
      assert ("'" + rest)[1..] == rest;
      assert word + s == word;
    } else {
      var c, tail := s[0], Quoted(s[1..]) + "'" + rest;
      assert c in s && '\0' !in s[1..];
      QuotedLexes(s[1..], rest, word + [c], words);
      assert word + [c] + s[1..] == word + s;
      if c == '\'' {
        QuoteInside(tail, word, words);
        assert Quoted(s) + "'" + rest == "'\\''" + tail;
      } else {
        assert Quoted(s) + "'" + rest == [c] + tail;
        assert ([c] + tail)[1..] == tail;
      }
    }
  }

  /** Leaving the quotes, an escaped quote, and entering them again. */
  lemma QuoteInside(tail: string, word: string, words: seq<string>)
    ensures Lex("'\\''" + tail, InQuotes, word, words) == Lex(tail, InQuotes, word + "'", words)
  {
    var s := "'\\''" + tail;
    assert s[1..][1..][1..][1..] == tail;
    assert s[1..][0] == '\\' && s[1..][1..][0] == '\'' && s[1..][1..][1..][0] == '\'';
    assert Lex(s[1..][1..][1..], Word, word + "'", words) == Lex(tail, InQuotes, word + "'", words);
    assert Lex(s[1..][1..], Escaped(true), word, words) == Lex(tail, InQuotes, word + "'", words);
    assert Lex(s[1..], Word, word, words) == Lex(tail, InQuotes, word + "'", words);
  }

  lemma {:induction false} NulIsRefused(s: string, mode: Mode, word: string, words: seq<string>)
    requires '\0' in s
    ensures Lex(s, mode, word, words) == None
    decreases |s|
  {
    if s[0] != '\0' {
      var c, rest := s[0], s[1..];
      assert s == [c] + rest;
      match mode
      case InQuotes => NulIsRefused(rest, if c == '\'' then Word else InQuotes, if c == '\'' then word else word + [c], words);
      case Escaped(inWord) =>
        if c == '\n' {
          NulIsRefused(rest, if inWord then Word else Blank, word, words);
        } else {
          NulIsRefused(rest, Word, word + [c], words);
        }
      case _ =>
        if IsBlank(c) {
          NulIsRefused(rest, Blank, "", if mode.Word? then words + [word] else words);
        } else if c == '\'' {
          NulIsRefused(rest, InQuotes, word, words);
        } else if c == '\\' {
          NulIsRefused(rest, Escaped(mode.Word?), word, words);
        } else if !IsSpecial(c) {
          NulIsRefused(rest, Word, word + [c], words);
        }
    }
  }

  lemma {:induction false} QuotedKeepsNul(s: string)
    ensures '\0' in s ==> '\0' in Quoted(s)
  {
    if '\0' in s && s[0] != '\0' {
      assert s == [s[0]] + s[1..];
      QuotedKeepsNul(s[1..]);
    }
  }

  lemma QuotedThen(path: string, rest: string, words: seq<string>)
    requires '\0' !in path
    ensures Lex(("'" + Quoted(path) + "'") + rest, Blank, "", words) == Lex(rest, Word, path, words)
  {
    var line := ("'" + Quoted(path) + "'") + rest;
    QuotedLexes(path, rest, "", words);
    assert line[1..] == Quoted(path) + "'" + rest;
    assert "" + path == path;
  }

  lemma LexEnds(word: string, words: seq<string>)
    ensures Lex("", Word, word, words) == Some(words + [word])
  {
  }

  /** The shell reads a quoted string back as one word, itself, exactly when it
      has no NUL. */
  lemma QuoteRoundTrip(s: string)
    ensures Lex("'" + Quoted(s) + "'", Blank, "", []) == Some([s]) <==> '\0' !in s
  {
    var line := "'" + Quoted(s) + "'";
    hide Lex, Quoted;
    if '\0' in s {
      QuotedKeepsNul(s);
      assert '\0' in "'" + Quoted(s);
      NulIsRefused(line, Blank, "", []);
    } else {
      QuotedThen(s, "", []);
      assert line + "" == line;
      LexEnds(s, []);
      assert [] + [s] == [s];
    }
  }

  predicate Ordinary(c: char)
  {
    !IsBlank(c) && !IsSpecial(c) && c != '\'' && c != '\\'
  }

  lemma {:induction false} OrdinaryLexes(w: string, rest: string, mode: Mode, word: string, words: seq<string>)
    requires w != "" && (mode.Blank? || mode.Word?) && forall c <- w :: Ordinary(c)
    ensures Lex(w + rest, mode, word, words) == Lex(rest, Word, word + w, words)
    decreases |w|
  {
    var tail := w[1..] + rest;
    assert w[0] in w && (w + rest)[1..] == tail && (w + rest)[0] == w[0];
    if |w| == 1 {
      assert tail == rest && word + w == word + [w[0]];
    } else {
      assert forall c <- w[1..] :: c in w;
      OrdinaryLexes(w[1..], rest, Word, word + [w[0]], words);
      assert word + [w[0]] + w[1..] == word + w;
    }
  }

  lemma WordThenBlank(w: string, rest: string, words: seq<string>)
    requires w != "" && forall c <- w :: Ordinary(c)
    ensures Lex(w + " " + rest, Blank, "", words) == Lex(rest, Blank, "", words + [w])
  {
    OrdinaryLexes(w, " " + rest, Blank, "", words);
    assert w + " " + rest == w + (" " + rest) && "" + w == w;
    assert (" " + rest)[1..] == rest;
  }

  lemma CatCommandLexes(path: string)
    requires '\0' !in path
    ensures Lex("cat" + " " + ("--" + " " + (("'" + Quoted(path) + "'") + "")), Blank, "", []) == Some(["cat", "--", path])
  {
    hide Lex, Quoted;
    var q := ("'" + Quoted(path) + "'") + "";
    WordThenBlank("cat", "--" + " " + q, []);
    WordThenBlank("--", q, ["cat"]);
    QuotedThen(path, "", ["cat", "--"]);
    LexEnds(path, ["cat", "--"]);
    assert [] + ["cat"] == ["cat"] && ["cat"] + ["--"] == ["cat", "--"] && ["cat", "--"] + [path] == ["cat", "--", path];
  }

  lemma BlankEnds(rest: string, word: string, words: seq<string>)
    ensures Lex(" " + rest, Word, word, words) == Lex(rest, Blank, "", words + [word])
  {
    assert (" " + rest)[1..] == rest;
  }

  lemma TarFlagsLex(words: seq<string>)
    ensures Lex("-cf" + " " + ("-" + " " + "."), Blank, "", words) == Some(words + ["-cf", "-", "."])
  {
    hide Lex;
    WordThenBlank("-cf", "-" + " " + ".", words);
    WordThenBlank("-", ".", words + ["-cf"]);
    OrdinaryLexes(".", "", Blank, "", words + ["-cf"] + ["-"]);
    assert "." + "" == "." && "" + "." == ".";
    LexEnds(".", words + ["-cf"] + ["-"]);
    assert words + ["-cf"] + ["-"] + ["."] == words + ["-cf", "-", "."];
  }

  lemma TarCommandLexes(path: string)
    requires '\0' !in path
    ensures Lex("tar" + " " + ("-C" + " " + (("'" + Quoted(path) + "'") + (" " + ("-cf" + " " + ("-" + " " + "."))))), Blank, "", [])
         == Some(["tar", "-C", path, "-cf", "-", "."])
  {
    hide Lex, Quoted;
    var flags := "-cf" + " " + ("-" + " " + ".");
    var q := ("'" + Quoted(path) + "'") + (" " + flags);
    WordThenBlank("tar", "-C" + " " + q, []);
    WordThenBlank("-C", q, ["tar"]);
    QuotedThen(path, " " + flags, ["tar", "-C"]);
    BlankEnds(flags, path, ["tar", "-C"]);
    assert [] + ["tar"] == ["tar"] && ["tar"] + ["-C"] == ["tar", "-C"];
    assert ["tar", "-C"] + [path] == ["tar", "-C", path];
    TarFlagsLex(["tar", "-C", path]);
    assert ["tar", "-C", path] + ["-cf", "-", "."] == ["tar", "-C", path, "-cf", "-", "."];
  }
}
