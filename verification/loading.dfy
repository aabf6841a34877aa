/**
  The string-to-list part of `loadAccounts` and `loadProxies` (index.js):
  the file text is split on '\n', each line trimmed, blank lines dropped;
  an account line is further split on ',' into a token and an optional label.
 */
module Loading {
  import opened JsText

  /** One line of the accounts file: a bearer token and the display label
      (`name`) that prefixes its log lines. */
  datatype Account = Account(token: string, name: string)

  /** How many characters of the first field make up a default label. */
  const LabelPrefixLength: nat := 15

  /** `lines.map(line => line.trim()).filter(Boolean)`: the trimmed lines
      that are not empty, in their original order. */
  function NonBlank(lines: seq<string>): (r: seq<string>)
    ensures |r| <= |lines|
    ensures forall k :: 0 <= k < |r| ==> r[k] != []
  {
    if lines == [] then []
    else
      var t := Trim(lines[0]);
      (if t == [] then [] else [t]) + NonBlank(lines[1..])
  }

  /** The filter works line by line: the kept lines of two blocks are the
      kept lines of the first followed by those of the second. */
  lemma {:induction false} NonBlankConcat(a: seq<string>, b: seq<string>)
    ensures NonBlank(a + b) == NonBlank(a) + NonBlank(b)
    decreases |a|
  {
    if a == [] {
      assert a + b == b;
    } else {
      assert (a + b)[1..] == a[1..] + b;
      NonBlankConcat(a[1..], b);
      assert (a + b)[0] == a[0];
    }
  }

  /** Every kept line is the trimmed form of some input line, and is
      itself already trimmed. */
  lemma {:induction false} NonBlankFromInput(lines: seq<string>)
    ensures forall x :: x in NonBlank(lines) ==> Trim(x) == x && exists l :: l in lines && x == Trim(l)
    decreases |lines|
  {
    if lines != [] {
      NonBlankFromInput(lines[1..]);
      TrimIdempotent(lines[0]);
      assert lines[0] in lines;
      assert forall l :: l in lines[1..] ==> l in lines;
    }
  }

  /** No non-blank line is lost. */
  lemma {:induction false} NonBlankKeepsAll(lines: seq<string>)
    ensures forall l :: l in lines && Trim(l) != [] ==> Trim(l) in NonBlank(lines)
    decreases |lines|
  {
    if lines != [] {
      NonBlankKeepsAll(lines[1..]);
      assert forall l :: l in lines ==> l == lines[0] || l in lines[1..];
    }
  }

  /** The indices of the lines that are not blank (not all whitespace). */
  ghost function KeptIndices(lines: seq<string>): set<int> {
    set i | 0 <= i < |lines| && !AllWhitespace(lines[i])
  }

  /** Appending one line adds its index exactly when it is not blank. */
  lemma KeptIndicesSnoc(init: seq<string>, last: string)
    ensures KeptIndices(init + [last])
         == KeptIndices(init) + (if AllWhitespace(last) then {} else {|init|})
  {
    var lines := init + [last];
    forall i ensures i in KeptIndices(lines) <==> i in KeptIndices(init) || (i == |init| && !AllWhitespace(last)) {
      if 0 <= i < |init| { assert lines[i] == init[i]; }
    }
  }

  /** Appending one line adds one output line exactly when it is not blank. */
  lemma NonBlankSnoc(init: seq<string>, last: string)
    ensures |NonBlank(init + [last])| == |NonBlank(init)| + (if Trim(last) == [] then 0 else 1)
  {
    NonBlankConcat(init, [last]);
    assert [last][1..] == [];
  }

  /** As many lines come out as there are non-blank lines. */
  lemma {:induction false} NonBlankCount(lines: seq<string>)
    ensures |NonBlank(lines)| == |KeptIndices(lines)|
    decreases |lines|
  {
    if lines == [] {
      assert KeptIndices(lines) == {};
    } else {
      var n := |lines| - 1;
      var init, last := lines[..n], lines[n];
      assert lines == init + [last];
      NonBlankCount(init);
      NonBlankSnoc(init, last);
      KeptIndicesSnoc(init, last);
      TrimEmptyIff(last);
      assert n !in KeptIndices(init);
    }
  }

  /** The lines of a text file, trimmed, with the blank ones dropped. */
  function Lines(data: string): (r: seq<string>)
    ensures forall k :: 0 <= k < |r| ==> r[k] != [] && '\n' !in r[k] && Trim(r[k]) == r[k]
  {
    var r := NonBlank(Split(data, '\n'));
    NonBlankFromInput(Split(data, '\n'));
    assert forall k :: 0 <= k < |r| ==> '\n' !in r[k] by {
      forall k | 0 <= k < |r| ensures '\n' !in r[k] {
        assert r[k] in r;
        var l :| l in Split(data, '\n') && r[k] == Trim(l);
        TrimKeepsContents(l);
      }
    }
    r
  }

  /** A single line yields itself trimmed, or nothing when it is blank. */
  lemma LinesOfOneLine(line: string)
    requires '\n' !in line
    ensures Lines(line) == if Trim(line) == [] then [] else [Trim(line)]
  {
    SplitWithoutSeparator(line, '\n');
    assert [line][1..] == [];
  }

  /** A line break separates the text into two blocks parsed independently:
      the order of the lines is kept. */
  lemma LinesConcat(a: string, b: string)
    ensures Lines(a + "\n" + b) == Lines(a) + Lines(b)
  {
    SplitConcat(a, b, '\n');
    NonBlankConcat(Split(a, '\n'), Split(b, '\n'));
  }

  /** A text yields no lines exactly when it is all whitespace (line breaks
      included). */
  lemma {:induction false} LinesEmptyIff(data: string)
    ensures Lines(data) == [] <==> AllWhitespace(data)
    decreases |data|
  {
    if '\n' in data {
      var i :| 0 <= i < |data| && data[i] == '\n';
      var a, b := data[..i], data[i + 1..];
      assert data == a + "\n" + b;
      LinesConcat(a, b);
      LinesEmptyIff(a);
      LinesEmptyIff(b);
      AllWhitespaceConcat(a, '\n', b);
    } else {
      LinesOfOneLine(data);
      TrimEmptyIff(data);
    }
  }

  /** One trimmed, non-blank line of the accounts file: `line.split(',')`,
      the first field trimmed as the token, the second field trimmed as the
      label, falling back to the first 15 characters of the (untrimmed)
      first field when the label is missing or blank. */
  function ParseAccountLine(line: string): (a: Account)
    ensures Trim(a.token) == a.token
    ensures |a.name| <= LabelPrefixLength || (a.name != [] && Trim(a.name) == a.name)
  {
    var fields := Split(line, ',');
    TrimIdempotent(fields[0]);
    var given := if |fields| > 1 then Trim(fields[1]) else [];
    Account(Trim(fields[0]), if given != [] then (TrimIdempotent(fields[1]); given) else Prefix(fields[0], LabelPrefixLength))
  }

  /** Neither field of a parsed line holds a comma, and every character of
      either comes from the line. */
  lemma AccountLineFromLine(line: string)
    ensures ',' !in ParseAccountLine(line).token && ',' !in ParseAccountLine(line).name
    ensures forall c :: c in ParseAccountLine(line).token || c in ParseAccountLine(line).name ==> c in line
  {
    var fields := Split(line, ',');
    SplitKeepsContents(line, ',');
    TrimKeepsContents(fields[0]);
    if |fields| > 1 {
      TrimKeepsContents(fields[1]);
    }
  }

  /** A line without a comma is a token alone; its label is its first 15
      characters. */
  lemma AccountLineWithoutLabel(field: string)
    requires ',' !in field
    ensures ParseAccountLine(field) == Account(Trim(field), Prefix(field, LabelPrefixLength))
  {
    SplitWithoutSeparator(field, ',');
  }

  /** `token,label`: the label is the trimmed second field unless that is
      blank, in which case it is the first 15 characters of the first field
      as written, trailing whitespace included. */
  lemma AccountLineWithLabel(first: string, second: string)
    requires ',' !in first && ',' !in second
    ensures ParseAccountLine(first + "," + second)
         == Account(Trim(first),
                    if Trim(second) != [] then Trim(second) else Prefix(first, LabelPrefixLength))
  {
    SplitConcat(first, second, ',');
    SplitWithoutSeparator(first, ',');
    SplitWithoutSeparator(second, ',');
  }

  /** Fields after the second comma are ignored. */
  lemma AccountLineIgnoresExtraFields(first: string, second: string, more: string)
    requires ',' !in first && ',' !in second
    ensures ParseAccountLine(first + "," + second + "," + more)
         == ParseAccountLine(first + "," + second)
  {
    SplitWithoutSeparator(first, ',');
    SplitWithoutSeparator(second, ',');
    var tail := second + "," + more;
    SplitConcat(second, more, ',');
    assert Split(tail, ',') == [second] + Split(more, ',');
    SplitConcat(first, tail, ',');
    assert first + "," + second + "," + more == first + [','] + tail;
    var fields := Split(first + [','] + tail, ',');
    assert fields == [first] + ([second] + Split(more, ','));
    assert fields[0] == first && fields[1] == second;
    AccountLineWithLabel(first, second);
  }

  /** `Array.prototype.map` with a callback that ignores the index. */
  function MapSeq<A, B>(f: A -> B, s: seq<A>): (r: seq<B>)
    ensures |r| == |s|
    ensures forall k :: 0 <= k < |s| ==> r[k] == f(s[k])
    decreases |s|
  {
    if s == [] then [] else [f(s[0])] + MapSeq(f, s[1..])
  }

  /** Mapping works element by element: the image of two blocks is the
      image of the first followed by that of the second. */
  lemma {:induction false} MapSeqConcat<A, B>(f: A -> B, a: seq<A>, b: seq<A>)
    ensures MapSeq(f, a + b) == MapSeq(f, a) + MapSeq(f, b)
    decreases |a|
  {
    if a == [] {
      assert a + b == b;
    } else {
      assert (a + b)[1..] == a[1..] + b;
      MapSeqConcat(f, a[1..], b);
      assert (a + b)[0] == a[0];
    }
  }

  /** The image of a two-element list. */
  lemma MapSeqPair<A, B>(f: A -> B, x: A, y: A)
    ensures MapSeq(f, [x, y]) == [f(x), f(y)]
  {
    assert [x, y][1..] == [y];
    assert [y][1..] == [];
  }

  /** The account list `loadAccounts` builds from the file text: one parsed
      account per kept line. */
  function ParseAccounts(data: string): (r: seq<Account>)
    ensures |r| == |Lines(data)|
    ensures forall k :: 0 <= k < |r| ==> r[k] == ParseAccountLine(Lines(data)[k])
  {
    MapSeq(ParseAccountLine, Lines(data))
  }

  /** Accounts come out in file order, one per non-blank line. */
  lemma ParseAccountsConcat(a: string, b: string)
    ensures ParseAccounts(a + "\n" + b) == ParseAccounts(a) + ParseAccounts(b)
  {
    LinesConcat(a, b);
    MapSeqConcat(ParseAccountLine, Lines(a), Lines(b));
  }

  /** No account is loaded exactly when the file is all whitespace. */
  lemma ParseAccountsEmptyIff(data: string)
    ensures ParseAccounts(data) == [] <==> AllWhitespace(data)
  {
    LinesEmptyIff(data);
  }

  /** The proxy list `loadProxies` builds from the file text. */
  function ParseProxies(data: string): (r: seq<string>)
    ensures forall k :: 0 <= k < |r| ==> r[k] != [] && '\n' !in r[k] && Trim(r[k]) == r[k]
  {
    Lines(data)
  }

  /** Two trimmed, non-empty lines give exactly those two lines. */
  lemma LinesOfTwo(first: string, second: string)
    requires first != [] && Trim(first) == first && '\n' !in first
    requires second != [] && Trim(second) == second && '\n' !in second
    ensures Lines(first + "\n" + second) == [first, second]
  {
    LinesOfOneLine(first);
    LinesOfOneLine(second);
    assert Lines(first) == [first] && Lines(second) == [second];
    LinesConcat(first, second);
  }

  /** A token and label joined by a comma, both trimmed, form a trimmed line. */
  lemma JoinedFieldsTrimmed(token: string, name: string)
    requires token != [] && Trim(token) == token
    requires name != [] && Trim(name) == name
    ensures Trim(token + "," + name) == token + "," + name
  {
    var line := token + "," + name;
    TrimIsWindow(token);
    TrimIsWindow(name);
    assert line[0] == token[0] && line[|line| - 1] == name[|name| - 1];
    TrimOfTrimmed(line);
  }

  /** A trimmed `token,label` line parses to exactly that token and label. */
  lemma AccountLineOfTrimmed(token: string, name: string)
    requires token != [] && Trim(token) == token && ',' !in token
    requires name != [] && Trim(name) == name && ',' !in name
    ensures ParseAccountLine(token + "," + name) == Account(token, name)
  {
    AccountLineWithLabel(token, name);
  }

  /** A trimmed token of at most 15 characters alone on its line is also
      its own label. */
  lemma AccountLineOfShortToken(token: string)
    requires Trim(token) == token && ',' !in token
    requires |token| <= LabelPrefixLength
    ensures ParseAccountLine(token) == Account(token, token)
  {
    AccountLineWithoutLabel(token);
  }

  /** The accounts of a `token,label` line followed by a short bare token. */
  lemma TwoAccountLines(token1: string, label1: string, token2: string)
    requires token1 != [] && Trim(token1) == token1 && ',' !in token1 && '\n' !in token1
    requires label1 != [] && Trim(label1) == label1 && ',' !in label1 && '\n' !in label1
    requires token2 != [] && Trim(token2) == token2 && ',' !in token2 && '\n' !in token2
    requires |token2| <= LabelPrefixLength
    ensures ParseAccounts(token1 + "," + label1 + "\n" + token2)
         == [Account(token1, label1), Account(token2, token2)]
  {
    var first := token1 + "," + label1;
    assert token1 + "," + label1 + "\n" + token2 == first + "\n" + token2;
    assert '\n' !in first;
    JoinedFieldsTrimmed(token1, label1);
    AccountsOfTwoLines(first, token2);
    AccountLineOfTrimmed(token1, label1);
    AccountLineOfShortToken(token2);
  }

  /** Two trimmed, non-empty lines give one account each, in order. */
  lemma AccountsOfTwoLines(first: string, second: string)
    requires first != [] && Trim(first) == first && '\n' !in first
    requires second != [] && Trim(second) == second && '\n' !in second
    ensures ParseAccounts(first + "\n" + second) == [ParseAccountLine(first), ParseAccountLine(second)]
  {
    LinesOfTwo(first, second);
    MapSeqPair(ParseAccountLine, first, second);
  }
}
