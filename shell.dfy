/** The shell side of the permission fixes: `check_permissions` hands each fix
    command to `/bin/sh` (`subprocess.run(cmd, shell=True)`), so what a command
    does is decided by how the shell splits it into words.

    `Split` is a POSIX shell word splitter cut down to what the fix commands
    use: blanks separate words, single quotes take everything literally up to
    the next single quote, and a backslash outside quotes takes the next
    character literally. Every other character is ordinary. */
module Shell {
  import opened Wrappers

  /** Scan `s`, `quoted` telling whether a single quote is open, `cur` the
      word being built, `inWord` whether a word has started, `acc` the words
      finished so far. `None` is a syntax error (an unterminated quote). */
  function Split(s: string, quoted: bool, cur: string, inWord: bool, acc: seq<string>): Option<seq<string>>
    decreases |s|
  {
    if s == [] then
      if quoted then None else Some(if inWord then acc + [cur] else acc)
    else if quoted then
      if s[0] == '\'' then Split(s[1..], false, cur, true, acc)
      else Split(s[1..], true, cur + [s[0]], true, acc)
    else if s[0] == ' ' then
      Split(s[1..], false, "", false, if inWord then acc + [cur] else acc)
    else if s[0] == '\'' then
      Split(s[1..], true, cur, true, acc)
    else if s[0] == '\\' && |s| > 1 then
      Split(s[2..], false, cur + [s[1]], true, acc)
    else
      Split(s[1..], false, cur + [s[0]], true, acc)
  }

  /** The words `sh -c` would run for the command line `s`. */
  function Words(s: string): Option<seq<string>>
  {
    Split(s, false, "", false, [])
  }

  /** A word the shell reads as itself: no blank, quote or backslash. */
  predicate Plain(w: string)
  {
    forall k :: 0 <= k < |w| ==> w[k] != ' ' && w[k] != '\'' && w[k] != '\\'
  }

  lemma {:induction false} PlainScan(w: string, rest: string, cur: string, inWord: bool, acc: seq<string>)
    requires Plain(w)
    ensures Split(w + rest, false, cur, inWord, acc) == Split(rest, false, cur + w, inWord || w != [], acc)
    decreases |w|
  {
    if w != [] {
      assert (w + rest)[1..] == w[1..] + rest;
      PlainScan(w[1..], rest, cur + [w[0]], true, acc);
      assert cur + [w[0]] + w[1..] == cur + w;
    } else {
      assert w + rest == rest;
      assert cur + w == cur;
    }
  }

  /** The body of a single-quoted word: each `'` becomes `'\''`, which closes
      the quote, adds an escaped quote and opens the quote again. */
  function QuoteBody(p: string): string
  {
    if p == [] then []
    else (if p[0] == '\'' then "'\\''" else [p[0]]) + QuoteBody(p[1..])
  }

  /** The path as one shell word. */
  function Quote(p: string): string
  {
    "'" + QuoteBody(p) + "'"
  }

  /** `'\''` inside a quote: close the quote, take an escaped quote, reopen. */
  lemma EscapedQuoteStep(tail: string, cur: string, acc: seq<string>)
    ensures Split("'\\''" + tail, true, cur, true, acc) == Split(tail, true, cur + "'", true, acc)
  {
    var s := "'\\''" + tail;
    assert s[1..] == "\\''" + tail;
    assert s[1..][2..] == "'" + tail;
    assert ("'" + tail)[1..] == tail;
    calc {
      Split(s, true, cur, true, acc);
      Split(s[1..], false, cur, true, acc);
      Split(s[1..][2..], false, cur + "'", true, acc);
      Split(tail, true, cur + "'", true, acc);
    }
  }

  lemma {:induction false} QuoteBodyScan(p: string, rest: string, cur: string, acc: seq<string>)
    ensures Split(QuoteBody(p) + "'" + rest, true, cur, true, acc) == Split(rest, false, cur + p, true, acc)
    decreases |p|
  {
    if p == [] {
      assert QuoteBody(p) + "'" + rest == "'" + rest;
      assert cur + p == cur;
    } else {
      var tail := QuoteBody(p[1..]) + "'" + rest;
      QuoteBodyScan(p[1..], rest, cur + [p[0]], acc);
      assert cur + [p[0]] + p[1..] == cur + p;
      if p[0] == '\'' {
        assert QuoteBody(p) + "'" + rest == "'\\''" + tail;
        EscapedQuoteStep(tail, cur, acc);
      } else {
        assert QuoteBody(p) + "'" + rest == [p[0]] + tail;
        assert ([p[0]] + tail)[1..] == tail;
      }
    }
  }

  /** A path with no single quote in it is quoted by wrapping it in quotes. */
  lemma {:induction false} QuoteBodyOfQuoteFree(p: string)
    requires forall k :: 0 <= k < |p| ==> p[k] != '\''
    ensures QuoteBody(p) == p
    decreases |p|
  {
    if p != [] {
      QuoteBodyOfQuoteFree(p[1..]);
      assert [p[0]] + p[1..] == p;
    }
  }

  /** The fix command with the path quoted so that any path is one word:
      whatever the path holds, the shell runs `chmod` with the mode and
      exactly that path. */
  function FixCommand(mode: string, path: string): (r: string)
    ensures mode != [] && Plain(mode) ==> Words(r) == Some(["chmod", mode, path])
  {
    // The branches agree; the test only guards the lemma call.
    if mode != [] && Plain(mode) then
      QuotedCommandWords(mode, path);
      "chmod " + mode + " " + Quote(path)
    else
      "chmod " + mode + " " + Quote(path)
  }

  /** `chmod <mode> '<path>'`, the fix command as `check_permissions` writes
      it. For paths without a single quote it is the quoted command. */
  function AsWrittenFixCommand(mode: string, path: string): (r: string)
    ensures (forall k :: 0 <= k < |path| ==> path[k] != '\'') ==> r == FixCommand(mode, path)
  {
    // The branches agree; the test only guards the lemma call.
    if forall k :: 0 <= k < |path| ==> path[k] != '\'' then
      QuoteBodyOfQuoteFree(path);
      "chmod " + mode + " '" + path + "'"
    else
      "chmod " + mode + " '" + path + "'"
  }

  lemma BlankStep(rest: string, cur: string, acc: seq<string>)
    ensures Split(" " + rest, false, cur, true, acc) == Split(rest, false, "", false, acc + [cur])
  {
    assert (" " + rest)[1..] == rest;
  }

  lemma QuoteStep(rest: string, cur: string, inWord: bool, acc: seq<string>)
    ensures Split("'" + rest, false, cur, inWord, acc) == Split(rest, true, cur, true, acc)
  {
    assert ("'" + rest)[1..] == rest;
  }

  /** Both forms of the fix command read `chmod`, the mode, and then open a
      single quote. */
  lemma CommandHead(mode: string, body: string)
    requires mode != [] && Plain(mode)
    ensures Words("chmod " + mode + " '" + body) == Split(body, true, "", true, ["chmod", mode])
  {
    var afterMode := " " + ("'" + body);
    var afterChmod := " " + (mode + afterMode);
    assert "chmod " + mode + " '" + body == "chmod" + afterChmod;
    PlainScan("chmod", afterChmod, "", false, []);
    assert "" + "chmod" == "chmod" && [] + ["chmod"] == ["chmod"];
    BlankStep(mode + afterMode, "chmod", []);
    PlainScan(mode, afterMode, "", false, ["chmod"]);
    assert "" + mode == mode && ["chmod"] + [mode] == ["chmod", mode];
    BlankStep("'" + body, mode, ["chmod"]);
    QuoteStep(body, "", false, ["chmod", mode]);
  }

  /** Inside single quotes, text without a quote is taken as it is, and the
      next quote closes the quote. */
  lemma QuotedScan(w: string, rest: string, cur: string, acc: seq<string>)
    requires forall k :: 0 <= k < |w| ==> w[k] != '\''
    ensures Split(w + "'" + rest, true, cur, true, acc) == Split(rest, false, cur + w, true, acc)
  {
    QuoteBodyOfQuoteFree(w);
    QuoteBodyScan(w, rest, cur, acc);
  }

  /** The proof behind `FixCommand`'s contract. */
  lemma QuotedCommandWords(mode: string, path: string)
    requires mode != [] && Plain(mode)
    ensures Words("chmod " + mode + " " + Quote(path)) == Some(["chmod", mode, path])
  {
    var body := QuoteBody(path) + "'" + "";
    assert "chmod " + mode + " " + Quote(path) == "chmod " + mode + " '" + body;
    CommandHead(mode, body);
    QuoteBodyScan(path, "", "", ["chmod", mode]);
    assert "" + path == path;
    assert ["chmod", mode] + [path] == ["chmod", mode, path];
  }

  /** As written, a quote in the path ends the quoting early: for a
      configuration named like `John's.ovpn` the shell refuses the command
      (the last quote is left open), so the fix fails. */
  lemma AsWrittenRefusesQuote(mode: string, before: string, after: string)
    requires mode != [] && Plain(mode)
    requires forall k :: 0 <= k < |before| ==> before[k] != '\''
    requires Plain(after)
    ensures Words(AsWrittenFixCommand(mode, before + "'" + after)) == None
  {
    var acc := ["chmod", mode];
    var body := before + "'" + (after + "'");
    assert AsWrittenFixCommand(mode, before + "'" + after) == "chmod " + mode + " '" + body;
    CommandHead(mode, body);
    QuotedScan(before, after + "'", "", acc);
    PlainScan(after, "'", "" + before, true, acc);
    QuoteStep("", "" + before + after, true, acc);
  }

  /** The name `John's.ovpn` is one such path. */
  lemma AsWrittenRefusesExample()
    ensures Words(AsWrittenFixCommand("600", "John's.ovpn")) == None
  {
    assert "John's.ovpn" == "John" + "'" + "s.ovpn";
    AsWrittenRefusesQuote("600", "John", "s.ovpn");
  }

  /** As written, a path `x' 'y` makes the shell run `chmod` on two other
      files, `x` and `y`, and leaves the audited file as it was. */
  lemma AsWrittenSplitsPath(mode: string, x: string, y: string)
    requires mode != [] && Plain(mode)
    requires forall k :: 0 <= k < |x| ==> x[k] != '\''
    requires forall k :: 0 <= k < |y| ==> y[k] != '\''
    ensures Words(AsWrittenFixCommand(mode, x + "' '" + y)) == Some(["chmod", mode, x, y])
  {
    var acc := ["chmod", mode];
    var last := y + "'" + "";
    var body := x + "'" + (" " + ("'" + last));
    assert AsWrittenFixCommand(mode, x + "' '" + y) == "chmod " + mode + " '" + body;
    CommandHead(mode, body);
    QuotedScan(x, " " + ("'" + last), "", acc);
    assert "" + x == x;
    BlankStep("'" + last, x, acc);
    QuoteStep(last, "", false, acc + [x]);
    QuotedScan(y, "", "", acc + [x]);
    assert "" + y == y;
    assert acc + [x] + [y] == ["chmod", mode, x, y];
  }
}
