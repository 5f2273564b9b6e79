/**
 * The command line that pkg.py composes, one parse of it by the quoting rules of a POSIX
 * shell (sections 2.2 and 2.3 of the POSIX.1-2017 Shell Command Language), and the
 * positional reading of the words by config_server.h.
 */
module Launcher {
  import opened Basics

  const QUOTE: char := '\''

  /** The values pkg.py interpolates, after str(). */
  datatype PkgConfig = PkgConfig(
    test: string, hostFile: string, domain: string, protocol: string, port: string, rpcThreads: string,
    ioSize: string, mdSize: string, rep: string, sleep: string)

  function Words(c: PkgConfig): seq<string> {
    ["chi_net_bench", c.test, c.hostFile, c.domain, c.protocol, c.port, c.rpcThreads,
     c.ioSize, c.mdSize, c.rep, c.sleep]
  }

  function Quoted(w: string): string { [QUOTE] + w + [QUOTE] }

  /** ' '.join of the quoted words. */
  function Command(ws: seq<string>): string {
    if ws == [] then "" else
      (if |ws| == 1 then "" else Command(ws[..|ws| - 1]) + " ") + Quoted(ws[|ws| - 1])
  }

  /** Each word stands between single quotes, and a blank comes before every word but the first. */
  lemma CommandJoins(ws: seq<string>, w: string)
    ensures Command(ws + [w]) == (if ws == [] then "" else Command(ws) + " ") + "'" + w + "'"
  {
    assert (ws + [w])[..|ws|] == ws;
    assert "" + "'" + w + "'" == "'" + w + "'";
    assert [QUOTE] + w + [QUOTE] == "'" + w + "'";
  }

  datatype Mode = Unquoted | Single | Double

  /**
   * What a shell makes of a command by quoting alone: words; a quote or an escape that the
   * end cuts off; an operator or a comment, so that it is not one simple command; or an
   * expansion, whose result depends on the shell's variables, commands and files.
   */
  datatype Parse = Parsed(words: seq<string>) | Unfinished | Operator | Expansion

  predicate IsOperator(c: char) { c in "|&;<>()\n" }

  predicate Expands(c: char) { c in "$`*?[" }

  function Or(cur: Option<string>): string { if cur.Some? then cur.value else "" }

  function Close(cur: Option<string>, acc: seq<string>): seq<string> { if cur.Some? then acc + [cur.value] else acc }

  /**
   * Token recognition with quote removal, up to the first thing that goes beyond it. `cur`
   * is the word in progress, `acc` the words before it.
   */
  function Lex(s: string, mode: Mode, cur: Option<string>, acc: seq<string>): Parse
    decreases |s|
  {
    if s == [] then
      if mode.Unquoted? then Parsed(Close(cur, acc)) else Unfinished
    else
      var c, rest := s[0], s[1..];
      match mode
      case Single =>
        if c == QUOTE then Lex(rest, Unquoted, cur, acc) else Lex(rest, Single, Some(Or(cur) + [c]), acc)
      case Double =>
        if c == '"' then Lex(rest, Unquoted, cur, acc)
        else if c == '$' || c == '`' then Expansion
        else if c == '\\' && rest != [] && rest[0] in "$`\"\\" then
          Lex(rest[1..], Double, Some(Or(cur) + [rest[0]]), acc)
        else if c == '\\' && rest != [] && rest[0] == '\n' then Lex(rest[1..], Double, cur, acc)
        else Lex(rest, Double, Some(Or(cur) + [c]), acc)
      case Unquoted =>
        if c == QUOTE then Lex(rest, Single, Some(Or(cur)), acc)
        else if c == '"' then Lex(rest, Double, Some(Or(cur)), acc)
        else if c == ' ' || c == '\t' then Lex(rest, Unquoted, None, Close(cur, acc))
        else if c == '\\' then
          if rest == [] then Unfinished
          else if rest[0] == '\n' then Lex(rest[1..], Unquoted, cur, acc)
          else Lex(rest[1..], Unquoted, Some(Or(cur) + [rest[0]]), acc)
        else if IsOperator(c) || (c == '#' && cur.None?) then Operator
        else if Expands(c) || (c == '~' && cur.None?) then Expansion
        else Lex(rest, Unquoted, Some(Or(cur) + [c]), acc)
  }

  function ShellWords(s: string): Parse { Lex(s, Unquoted, None, []) }

  /** A blank ends a word, and quotes open, outside quotes (sections 2.2.2, 2.2.3 and 2.3). */
  lemma BlankAndQuoteRules(c: char, rest: string, cur: Option<string>, acc: seq<string>)
    ensures var shell := Lex([c] + rest, Unquoted, cur, acc);
            && (c == ' ' || c == '\t' ==>
                  shell == Lex(rest, Unquoted, None, if cur.Some? then acc + [cur.value] else acc))
            && (c == '\'' ==> shell == Lex(rest, Single, Some(if cur.Some? then cur.value else ""), acc))
            && (c == '\"' ==> shell == Lex(rest, Double, Some(if cur.Some? then cur.value else ""), acc))
  {
    assert ([c] + rest)[1..] == rest;
  }

  /** An escaped character stands for itself, outside quotes (section 2.2.1). */
  lemma EscapeRule(c: char, rest: string, cur: Option<string>, acc: seq<string>)
    requires c != '\n'
    ensures Lex(['\\'] + [c] + rest, Unquoted, cur, acc)
         == Lex(rest, Unquoted, Some((if cur.Some? then cur.value else "") + [c]), acc)
  {
    var escaped := ['\\'] + [c] + rest;
    assert escaped[1..] == [c] + rest && escaped[1..][1..] == rest;
  }

  /** Operators and expansions end what quoting alone decides (sections 2.3 and 2.6). */
  lemma SpecialRules(c: char, rest: string, cur: Option<string>, acc: seq<string>)
    ensures c in "|&;<>()\n" ==> Lex([c] + rest, Unquoted, cur, acc) == Operator
    ensures c in "$`*?[" ==> Lex([c] + rest, Unquoted, cur, acc) == Expansion
  {}

  /** Letters, digits and some signs stand for themselves anywhere. */
  lemma LiteralRule(c: char, rest: string, cur: Option<string>, acc: seq<string>)
    requires 'a' <= c <= 'z' || 'A' <= c <= 'Z' || '0' <= c <= '9' || c in "=%!{}"
    ensures Lex([c] + rest, Unquoted, cur, acc)
         == Lex(rest, Unquoted, Some((if cur.Some? then cur.value else "") + [c]), acc)
  {
    assert ([c] + rest)[1..] == rest;
  }

  /** Between double quotes everything but the four special characters stands for itself. */
  lemma {:induction false} LexDoubleBody(w: string, rest: string, p: string, acc: seq<string>)
    requires forall c | c in w :: c !in "\"$`\\"
    ensures Lex(w + ['\"'] + rest, Double, Some(p), acc) == Lex(rest, Unquoted, Some(p + w), acc)
  {
    if w == [] {
      assert w + ['\"'] + rest == ['\"'] + rest && p + w == p;
    } else {
      var s := w + ['\"'] + rest;
      assert w[0] in w && forall c | c in w[1..] :: c in w;
      assert s[1..] == w[1..] + ['\"'] + rest && p + [w[0]] + w[1..] == p + w;
      LexDoubleBody(w[1..], rest, p + [w[0]], acc);
    }
  }

  // ---- No quote inside a value: the words come back ----

  lemma {:induction false} LexQuotedBody(w: string, rest: string, p: string, acc: seq<string>)
    requires QUOTE !in w
    ensures Lex(w + [QUOTE] + rest, Single, Some(p), acc) == Lex(rest, Unquoted, Some(p + w), acc)
  {
    if w == [] {
      assert w + [QUOTE] + rest == [QUOTE] + rest && p + w == p;
    } else {
      var s := w + [QUOTE] + rest;
      assert s[1..] == w[1..] + [QUOTE] + rest && p + [w[0]] + w[1..] == p + w;
      LexQuotedBody(w[1..], rest, p + [w[0]], acc);
    }
  }

  lemma LexQuoted(w: string, rest: string, acc: seq<string>)
    requires QUOTE !in w
    ensures Lex(Quoted(w) + rest, Unquoted, None, acc) == Lex(rest, Unquoted, Some(w), acc)
  {
    var s := Quoted(w) + rest;
    assert s[0] == QUOTE && s[1..] == w + [QUOTE] + rest;
    LexQuotedBody(w, rest, "", acc);
    assert "" + w == w;
  }

  lemma {:induction false} CommandLast(ws: seq<string>, rest: string)
    requires ws != []
    ensures var quoted := Quoted(ws[|ws| - 1]) + rest;
            Command(ws) + rest == if |ws| == 1 then quoted else Command(ws[..|ws| - 1]) + (" " + quoted)
  {
    hide Quoted;
    assert "" + Quoted(ws[|ws| - 1]) == Quoted(ws[|ws| - 1]);
  }

  /** After the command of the first words the lexer stands at the end of their last one. */
  lemma {:induction false} LexCommand(ws: seq<string>, rest: string)
    requires ws != [] && forall w | w in ws :: QUOTE !in w
    ensures Lex(Command(ws) + rest, Unquoted, None, []) == Lex(rest, Unquoted, Some(ws[|ws| - 1]), ws[..|ws| - 1])
  {
    hide Lex, Command, Quoted;
    var k := |ws| - 1;
    CommandLast(ws, rest);
    LexQuoted(ws[k], rest, ws[..k]);
    if k == 0 {
      assert ws[..0] == [];
    } else {
      var quoted := Quoted(ws[k]) + rest;
      LexCommand(ws[..k], " " + quoted);
      LexBlank(quoted, ws[k - 1], ws[..k - 1]);
      assert ws[..k][..k - 1] == ws[..k - 1] && ws[..k - 1] + [ws[k - 1]] == ws[..k];
    }
  }

  lemma LexBlank(rest: string, w: string, acc: seq<string>)
    ensures Lex(" " + rest, Unquoted, Some(w), acc) == Lex(rest, Unquoted, None, acc + [w])
  {
    assert (" " + rest)[1..] == rest;
  }

  // ---- A quote inside a value: the words cannot come back ----

  function Quotes(s: string): nat { if s == [] then 0 else (if s[0] == QUOTE then 1 else 0) + Quotes(s[1..]) }

  function QuotesIn(ws: seq<string>): nat { if ws == [] then 0 else QuotesIn(ws[..|ws| - 1]) + Quotes(ws[|ws| - 1]) }

  lemma {:induction false} QuotesAppend(s: string, t: string)
    ensures Quotes(s + t) == Quotes(s) + Quotes(t)
  {
    if s == [] {
      assert s + t == t;
    } else {
      assert (s + t)[1..] == s[1..] + t;
      QuotesAppend(s[1..], t);
    }
  }

  lemma QuotesChar(s: string, c: char)
    ensures Quotes(s + [c]) == Quotes(s) + (if c == QUOTE then 1 else 0)
  {
    QuotesAppend(s, [c]);
    assert [c][1..] == [];
  }

  lemma WordsAppend(ws: seq<string>, w: string)
    ensures Letters(ws + [w]) == Letters(ws) + |w| && QuotesIn(ws + [w]) == QuotesIn(ws) + Quotes(w)
  {
    assert (ws + [w])[..|ws|] == ws;
  }

  /** Words that still have to be ended by a blank before `out` is complete. */
  function Breaks(out: seq<string>, acc: seq<string>): nat {
    if |out| > |acc| + 1 then |out| - |acc| - 1 else 0
  }

  /**
   * The lexer only removes characters. Beside the quote characters it removes it must remove
   * a blank per word break and, if it keeps any quote character, one more that protects it.
   */
  lemma {:induction false} LexRemoves(s: string, mode: Mode, cur: Option<string>, acc: seq<string>)
    requires Lex(s, mode, cur, acc).Parsed?
    ensures var out := Lex(s, mode, cur, acc).words;
            var kept := QuotesIn(out) - QuotesIn(acc) - Quotes(Or(cur));
            var removed := |s| + Letters(acc) + |Or(cur)| - Letters(out);
            && |out| >= |acc| + (if cur.Some? then 1 else 0)
            && kept >= 0
            && removed >= Quotes(s) - kept + Breaks(out, acc) + (if mode.Double? || kept > 0 then 1 else 0)
    decreases |s|
  {
    hide QuotesIn, Letters, IsOperator, Expands;
    if s == [] {
      if cur.Some? {
        WordsAppend(acc, cur.value);
      }
    } else {
      var c, rest := s[0], s[1..];
      QuotesChar(Or(cur), c);
      match mode
      case Single =>
        if c == QUOTE {
          LexRemoves(rest, Unquoted, cur, acc);
        } else {
          LexRemoves(rest, Single, Some(Or(cur) + [c]), acc);
        }
      case Double => LexRemovesDouble(s, cur, acc);
      case Unquoted => LexRemovesUnquoted(s, cur, acc);
    }
  }

  lemma {:induction false} LexRemovesDouble(s: string, cur: Option<string>, acc: seq<string>)
    requires s != [] && Lex(s, Double, cur, acc).Parsed?
    ensures var out := Lex(s, Double, cur, acc).words;
            var kept := QuotesIn(out) - QuotesIn(acc) - Quotes(Or(cur));
            var removed := |s| + Letters(acc) + |Or(cur)| - Letters(out);
            && |out| >= |acc| + (if cur.Some? then 1 else 0)
            && kept >= 0
            && removed >= Quotes(s) - kept + Breaks(out, acc) + 1
    decreases |s|, 0
  {
    hide QuotesIn, Letters, IsOperator, Expands;
    var c, rest := s[0], s[1..];
    QuotesChar(Or(cur), c);
    if c == '"' {
      LexRemoves(rest, Unquoted, cur, acc);
    } else if c == '\\' && rest != [] && (rest[0] in "$`\"\\" || rest[0] == '\n') {
      QuotesChar(Or(cur), rest[0]);
      LexRemoves(rest[1..], Double, if rest[0] == '\n' then cur else Some(Or(cur) + [rest[0]]), acc);
    } else {
      LexRemoves(rest, Double, Some(Or(cur) + [c]), acc);
    }
  }

  lemma {:induction false} LexRemovesUnquoted(s: string, cur: Option<string>, acc: seq<string>)
    requires s != [] && Lex(s, Unquoted, cur, acc).Parsed?
    ensures var out := Lex(s, Unquoted, cur, acc).words;
            var kept := QuotesIn(out) - QuotesIn(acc) - Quotes(Or(cur));
            var removed := |s| + Letters(acc) + |Or(cur)| - Letters(out);
            && |out| >= |acc| + (if cur.Some? then 1 else 0)
            && kept >= 0
            && removed >= Quotes(s) - kept + Breaks(out, acc) + (if kept > 0 then 1 else 0)
    decreases |s|, 0
  {
    hide QuotesIn, Letters;
    var c, rest := s[0], s[1..];
    QuotesChar(Or(cur), c);
    if c == QUOTE || c == '"' {
      LexRemoves(rest, if c == QUOTE then Single else Double, Some(Or(cur)), acc);
    } else if c == ' ' || c == '\t' {
      if cur.Some? {
        WordsAppend(acc, cur.value);
      }
      LexRemoves(rest, Unquoted, None, Close(cur, acc));
    } else if c == '\\' {
      QuotesChar(Or(cur), rest[0]);
      LexRemoves(rest[1..], Unquoted, if rest[0] == '\n' then cur else Some(Or(cur) + [rest[0]]), acc);
    } else {
      LexRemoves(rest, Unquoted, Some(Or(cur) + [c]), acc);
    }
  }

  /** The command adds two quotes per word and a blank between words. */
  lemma {:induction false} CommandSize(ws: seq<string>)
    requires ws != []
    ensures |Command(ws)| == Letters(ws) + 3 * |ws| - 1 && Quotes(Command(ws)) == QuotesIn(ws) + 2 * |ws|
  {
    var k := |ws| - 1;
    var w := ws[k];
    QuotesAppend([QUOTE] + w, [QUOTE]);
    QuotesAppend([QUOTE], w);
    assert [QUOTE][1..] == [];
    if k > 0 {
      CommandSize(ws[..k]);
      QuotesChar(Command(ws[..k]), ' ');
      QuotesAppend(Command(ws[..k]) + " ", Quoted(w));
    } else {
      assert "" + Quoted(w) == Quoted(w) && ws[..0] == [];
    }
  }

  lemma {:induction false} NoQuotes(s: string)
    ensures Quotes(s) == 0 <==> QUOTE !in s
  {
    if s == [] {
    } else {
      NoQuotes(s[1..]);
      assert s == [s[0]] + s[1..];
    }
  }

  lemma {:induction false} NoQuotesIn(ws: seq<string>)
    ensures QuotesIn(ws) == 0 <==> forall w | w in ws :: QUOTE !in w
  {
    if ws == [] {
    } else {
      NoQuotesIn(ws[..|ws| - 1]);
      NoQuotes(ws[|ws| - 1]);
      assert ws == ws[..|ws| - 1] + [ws[|ws| - 1]];
    }
  }

  /** The shell gives back the words that were quoted, empty ones included, exactly when none holds a single quote. */
  lemma RoundTripIffNoQuote(ws: seq<string>)
    requires ws != []
    ensures ShellWords(Command(ws)) == Parsed(ws) <==> forall w | w in ws :: QUOTE !in w
  {
    hide Letters, QuotesIn;
    var s, k := Command(ws), |ws| - 1;
    if forall w | w in ws :: QUOTE !in w {
      LexCommand(ws, "");
      assert s + "" == s && ws[..k] + [ws[k]] == ws;
    }
    if ShellWords(s) == Parsed(ws) {
      LexRemoves(s, Unquoted, None, []);
      CommandSize(ws);
      NoWords();
      NoQuotesIn(ws);
    }
  }

  lemma NoWords()
    ensures Letters([]) == 0 && QuotesIn([]) == 0
  {}

  predicate QuoteFree(c: PkgConfig) { forall w | w in Words(c) :: QUOTE !in w }

  /** An option with a quote in it, whichever one it is: the words do not come back. */
  lemma QuoteBreaksCommand(c: PkgConfig)
    requires exists w :: w in Words(c) && QUOTE in w
    ensures ShellWords(Command(Words(c))) != Parsed(Words(c))
  {
    hide Command, ShellWords, Words;
    RoundTripIffNoQuote(Words(c));
  }

  // ---- The command's name ----

  /** Words that are complete stay as they are. */
  lemma {:induction false} LexKeepsWords(s: string, mode: Mode, cur: Option<string>, acc: seq<string>)
    requires Lex(s, mode, cur, acc).Parsed?
    ensures acc <= Lex(s, mode, cur, acc).words
    decreases |s|
  {
    hide IsOperator, Expands;
    if s == [] {
    } else {
      var c, rest := s[0], s[1..];
      match mode
      case Single =>
        if c == QUOTE {
          LexKeepsWords(rest, Unquoted, cur, acc);
        } else {
          LexKeepsWords(rest, Single, Some(Or(cur) + [c]), acc);
        }
      case Double =>
        if c == '"' {
          LexKeepsWords(rest, Unquoted, cur, acc);
        } else if c == '\\' && rest != [] && (rest[0] in "$`\"\\" || rest[0] == '\n') {
          LexKeepsWords(rest[1..], Double, if rest[0] == '\n' then cur else Some(Or(cur) + [rest[0]]), acc);
        } else {
          LexKeepsWords(rest, Double, Some(Or(cur) + [c]), acc);
        }
      case Unquoted =>
        if c == QUOTE || c == '"' {
          LexKeepsWords(rest, if c == QUOTE then Single else Double, Some(Or(cur)), acc);
        } else if c == ' ' || c == '\t' {
          LexKeepsWords(rest, Unquoted, None, Close(cur, acc));
        } else if c == '\\' {
          LexKeepsWords(rest[1..], Unquoted, if rest[0] == '\n' then cur else Some(Or(cur) + [rest[0]]), acc);
        } else {
          LexKeepsWords(rest, Unquoted, Some(Or(cur) + [c]), acc);
        }
    }
  }

  lemma {:induction false} CommandStarts(ws: seq<string>) returns (rest: string)
    requires |ws| >= 2
    ensures Command(ws) == Quoted(ws[0]) + (" " + rest)
  {
    hide Quoted;
    var k := |ws| - 1;
    if k == 1 {
      rest := Quoted(ws[1]);
      assert Command(ws[..1]) == "" + Quoted(ws[0]) == Quoted(ws[0]);
      assert Command(ws) == Quoted(ws[0]) + " " + rest;
    } else {
      var init := CommandStarts(ws[..k]);
      rest := init + " " + Quoted(ws[k]);
      assert Command(ws) == Quoted(ws[0]) + (" " + init) + " " + Quoted(ws[k]);
    }
  }

  /** A command whose name has no quote runs that name, whatever its options are. */
  lemma NameSurvives(ws: seq<string>)
    requires |ws| >= 2 && QUOTE !in ws[0] && ShellWords(Command(ws)).Parsed?
    ensures var argv := ShellWords(Command(ws)).words; argv != [] && argv[0] == ws[0]
  {
    hide Lex, Command, Quoted;
    var rest := CommandStarts(ws);
    LexQuoted(ws[0], " " + rest, []);
    LexBlank(rest, ws[0], []);
    LexKeepsWords(rest, Unquoted, None, [] + [ws[0]]);
  }

  // ---- BenchmarkInit ----

  /** hshm::ConfigParse and atoi, which are not part of this model. */
  datatype Parsers = Parsers(
    expandPath: string -> string, parseHostfile: string -> seq<string>, atoi: string -> int, parseSize: string -> nat)

  /** A value in main, so BenchmarkInit takes the old one and gives the new one. */
  datatype ServerConfig = ServerConfig(
    test: string, hostFile: string, hostNames: seq<string>, domain: string, protocol: string,
    port: int, numThreads: int, ioSize: nat, mdSize: nat, rep: nat, sleep: nat, localOnly: bool)

  const FRESH_CONFIG: ServerConfig := ServerConfig("", "", [], "", "", 0, 0, 0, 0, 0, 0, false)

  /** Every field holds the launcher option of the same name, parsed as that field wants it. */
  ghost predicate Reflects(config: ServerConfig, before: ServerConfig, c: PkgConfig, p: Parsers) {
    && config.test == c.test
    && config.hostFile == p.expandPath(c.hostFile)
    && config.hostNames == (if config.hostFile == "" then before.hostNames + ["localhost"]
                            else p.parseHostfile(config.hostFile))
    && config.domain == c.domain && config.protocol == c.protocol
    && config.port == p.atoi(c.port) && config.numThreads == p.atoi(c.rpcThreads)
    && config.ioSize == p.parseSize(c.ioSize) && config.mdSize == p.parseSize(c.mdSize)
    && config.rep == p.parseSize(c.rep) && config.sleep == p.parseSize(c.sleep)
  }

  /** The positional parse; None is the fatal exit of a wrong argument count. */
  method BenchmarkInit(before: ServerConfig, argv: seq<string>, p: Parsers) returns (after: Option<ServerConfig>)
    ensures after.None? <==> |argv| != 11
    ensures after.Some? ==>
              && after.value.test == argv[1] && after.value.hostFile == p.expandPath(argv[2])
              && after.value.hostNames == (if p.expandPath(argv[2]) == "" then before.hostNames + ["localhost"]
                                           else p.parseHostfile(p.expandPath(argv[2])))
              && after.value.domain == argv[3] && after.value.protocol == argv[4]
              && after.value.port == p.atoi(argv[5]) && after.value.numThreads == p.atoi(argv[6])
              && after.value.ioSize == p.parseSize(argv[7]) && after.value.mdSize == p.parseSize(argv[8])
              && after.value.rep == p.parseSize(argv[9]) && after.value.sleep == p.parseSize(argv[10])
              && after.value.localOnly == before.localOnly
    ensures after.Some? ==> forall c | Words(c)[1..] == argv[1..] :: Reflects(after.value, before, c, p)
  {
    if |argv| != 11 {
      return None;
    }
    var config := before;
    var opt := 1;
    config := config.(test := argv[opt]);
    opt := opt + 1;
    config := config.(hostFile := p.expandPath(argv[opt]));
    opt := opt + 1;
    if |config.hostFile| > 0 {
      config := config.(hostNames := p.parseHostfile(config.hostFile));
    } else {
      config := config.(hostNames := config.hostNames + ["localhost"]);
    }
    config := config.(domain := argv[opt]);
    opt := opt + 1;
    config := config.(protocol := argv[opt]);
    opt := opt + 1;
    config := config.(port := p.atoi(argv[opt]));
    opt := opt + 1;
    config := config.(numThreads := p.atoi(argv[opt]));
    opt := opt + 1;
    config := config.(ioSize := p.parseSize(argv[opt]));
    opt := opt + 1;
    config := config.(mdSize := p.parseSize(argv[opt]));
    opt := opt + 1;
    config := config.(rep := p.parseSize(argv[opt]));
    opt := opt + 1;
    config := config.(sleep := p.parseSize(argv[opt]));
    forall c | Words(c)[1..] == argv[1..]
      ensures Reflects(config, before, c, p)
    {
      WordsAt(c, argv);
    }
    return Some(config);
  }

  lemma WordsAt(c: PkgConfig, argv: seq<string>)
    requires |argv| == 11 && Words(c)[1..] == argv[1..]
    ensures argv[1] == c.test && argv[2] == c.hostFile && argv[3] == c.domain && argv[4] == c.protocol
    ensures argv[5] == c.port && argv[6] == c.rpcThreads && argv[7] == c.ioSize && argv[8] == c.mdSize
    ensures argv[9] == c.rep && argv[10] == c.sleep
  {
    assert forall k | 1 <= k < 11 :: argv[k] == argv[1..][k - 1] == Words(c)[k];
  }

  /**
   * From pkg.py's options to the benchmark's fields, by way of one shell: the options arrive
   * by quoting alone exactly when no option holds a single quote. Otherwise the command is
   * cut off or no simple command, hangs on an expansion that is not modelled, or the
   * benchmark refuses the argument count or runs with other options.
   */
  method Launch(c: PkgConfig, p: Parsers) returns (parse: Parse, config: Option<ServerConfig>)
    ensures parse == ShellWords(Command(Words(c)))
    ensures config.Some? <==> parse.Parsed? && |parse.words| == 11
    ensures config.Some? ==> parse.words[0] == "chi_net_bench" && !config.value.localOnly
    ensures config.Some? ==>
              forall seen | Words(seen) == parse.words :: Reflects(config.value, FRESH_CONFIG, seen, p)
    ensures parse == Parsed(Words(c)) <==> QuoteFree(c)
    ensures QuoteFree(c) ==> config.Some? && Reflects(config.value, FRESH_CONFIG, c, p)
    ensures parse == Parsed(["chi_net_bench", c.test, c.hostFile, c.domain, c.protocol, c.port, c.rpcThreads,
                             c.ioSize, c.mdSize, c.rep, c.sleep])
       <==> && '\'' !in c.test && '\'' !in c.hostFile && '\'' !in c.domain && '\'' !in c.protocol && '\'' !in c.port
            && '\'' !in c.rpcThreads && '\'' !in c.ioSize && '\'' !in c.mdSize && '\'' !in c.rep && '\'' !in c.sleep
    ensures parse == Parsed(["chi_net_bench", c.test, c.hostFile, c.domain, c.protocol, c.port, c.rpcThreads,
                             c.ioSize, c.mdSize, c.rep, c.sleep]) ==>
              && config.Some? && config.value.test == c.test && config.value.hostFile == p.expandPath(c.hostFile)
              && config.value.hostNames == (if config.value.hostFile == "" then ["localhost"]
                                            else p.parseHostfile(config.value.hostFile))
              && config.value.domain == c.domain && config.value.protocol == c.protocol
              && config.value.port == p.atoi(c.port) && config.value.numThreads == p.atoi(c.rpcThreads)
              && config.value.ioSize == p.parseSize(c.ioSize) && config.value.mdSize == p.parseSize(c.mdSize)
              && config.value.rep == p.parseSize(c.rep) && config.value.sleep == p.parseSize(c.sleep)
  {
    QuoteFreeMeans(c);
    ghost var words := ["chi_net_bench", c.test, c.hostFile, c.domain, c.protocol, c.port, c.rpcThreads,
                        c.ioSize, c.mdSize, c.rep, c.sleep];
    assert Words(c) == words;
    hide Command, ShellWords, QuoteFree, Words;
    RoundTripIffNoQuote(Words(c));
    parse := ShellWords(Command(Words(c)));
    config := None;
    if parse.Parsed? {
      NameIsBench(c);
      config := BenchmarkInit(FRESH_CONFIG, parse.words, p);
    }
  }

  lemma QuoteFreeMeans(c: PkgConfig)
    ensures QuoteFree(c)
       <==> && '\'' !in c.test && '\'' !in c.hostFile && '\'' !in c.domain && '\'' !in c.protocol && '\'' !in c.port
            && '\'' !in c.rpcThreads && '\'' !in c.ioSize && '\'' !in c.mdSize && '\'' !in c.rep && '\'' !in c.sleep
  {
    var ws := Words(c);
    assert ws[1] == c.test && ws[2] == c.hostFile && ws[3] == c.domain && ws[4] == c.protocol && ws[5] == c.port;
    assert ws[6] == c.rpcThreads && ws[7] == c.ioSize && ws[8] == c.mdSize && ws[9] == c.rep && ws[10] == c.sleep;
    assert forall k | 0 <= k < |ws[0]| :: ws[0][k] != '\'';
  }

  lemma NameIsBench(c: PkgConfig)
    requires ShellWords(Command(Words(c))).Parsed?
    ensures var argv := ShellWords(Command(Words(c))).words; argv != [] && argv[0] == "chi_net_bench"
  {
    hide Command, ShellWords;
    assert forall k | 0 <= k < |Words(c)[0]| :: Words(c)[0][k] != QUOTE;
    NameSurvives(Words(c));
  }
}
