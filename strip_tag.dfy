/** Model of the `strip` template-tag helper exported by
    packages/@glimmer/syntax/test/parser-node-test.ts: every literal piece of a
    tagged template is split into lines, each line is trimmed, the lines are
    glued back together with nothing between them, and each piece is followed
    by its interpolated argument when that argument is truthy. */
module StripTag {

  /** The characters `String.prototype.trim` removes: ECMAScript WhiteSpace
      (TAB, VT, FF, ZWNBSP and the Unicode space separators) and
      LineTerminator (LF, CR, LS, PS). */
  predicate IsWhitespace(c: char) {
    c == '\t' || c == '\n' || c == '\U{000B}' || c == '\U{000C}' || c == '\r' ||
    c == ' ' || c == '\U{00A0}' || c == '\U{1680}' ||
    ('\U{2000}' <= c <= '\U{200A}') ||
    c == '\U{2028}' || c == '\U{2029}' || c == '\U{202F}' || c == '\U{205F}' ||
    c == '\U{3000}' || c == '\U{FEFF}'
  }

  predicate AllWhitespace(s: string) {
    forall i :: 0 <= i < |s| ==> IsWhitespace(s[i])
  }

  /** Drops the leading whitespace of `s`. */
  function TrimStart(s: string): (r: string)
    ensures |r| <= |s| && r == s[|s| - |r|..]
    ensures AllWhitespace(s[..|s| - |r|])
    ensures r == [] || !IsWhitespace(r[0])
  {
    if s != [] && IsWhitespace(s[0]) then TrimStart(s[1..]) else s
  }

  /** Drops the trailing whitespace of `s`. */
  function TrimEnd(s: string): (r: string)
    ensures |r| <= |s| && r == s[..|r|]
    ensures AllWhitespace(s[|r|..])
    ensures r == [] || !IsWhitespace(r[|r| - 1])
  {
    if s != [] && IsWhitespace(s[|s| - 1]) then TrimEnd(s[..|s| - 1]) else s
  }

  /** Neither the first nor the last character is whitespace. */
  predicate NoEdgeWhitespace(s: string) {
    s == [] || (!IsWhitespace(s[0]) && !IsWhitespace(s[|s| - 1]))
  }

  /** `String.prototype.trim`: removes the whitespace on both ends, so that
      the result neither starts nor ends with whitespace. */
  function Trim(s: string): (r: string)
    ensures |r| <= |s|
    ensures NoEdgeWhitespace(r)
  {
    TrimEnd(TrimStart(s))
  }

  /** The trimmed string is the block of `s` that starts at offset `i`, with
      only whitespace before and after it. */
  lemma TrimIsInfix(s: string) returns (i: nat)
    ensures i + |Trim(s)| <= |s| && Trim(s) == s[i..i + |Trim(s)|]
    ensures AllWhitespace(s[..i]) && AllWhitespace(s[i + |Trim(s)|..])
  {
    var t := TrimStart(s);
    var r := TrimEnd(t);
    i := |s| - |t|;
    assert t == s[i..] && AllWhitespace(s[..i]);
    assert r == t[..|r|] && AllWhitespace(t[|r|..]);
    SliceOfSuffix(s, i, |r|);
  }

  lemma SliceOfSuffix(s: string, i: nat, m: nat)
    requires i + m <= |s|
    ensures s[i..][..m] == s[i..i + m] && s[i..][m..] == s[i + m..]
  {
  }

  lemma {:induction false} TrimStartPadded(before: string, rest: string)
    requires AllWhitespace(before)
    requires rest == [] || !IsWhitespace(rest[0])
    ensures TrimStart(before + rest) == rest
    decreases |before|
  {
    if before == [] {
      assert before + rest == rest;
    } else {
      assert (before + rest)[0] == before[0] && (before + rest)[1..] == before[1..] + rest;
      TrimStartPadded(before[1..], rest);
    }
  }

  lemma {:induction false} TrimEndPadded(rest: string, after: string)
    requires AllWhitespace(after)
    requires rest == [] || !IsWhitespace(rest[|rest| - 1])
    ensures TrimEnd(rest + after) == rest
    decreases |after|
  {
    if after == [] {
      assert rest + after == rest;
    } else {
      var s := rest + after;
      assert s[|s| - 1] == after[|after| - 1] && s[..|s| - 1] == rest + after[..|after| - 1];
      TrimEndPadded(rest, after[..|after| - 1]);
    }
  }

  /** Padding a string that has no whitespace at its ends with whitespace on
      both sides does not change what `trim` gives. */
  lemma TrimPadded(before: string, content: string, after: string)
    requires AllWhitespace(before) && AllWhitespace(after)
    requires NoEdgeWhitespace(content)
    ensures Trim(before + content + after) == content
  {
    if content == [] {
      assert before + content + after == before + after + [];
      TrimStartPadded(before + after, []);
    } else {
      assert before + content + after == before + (content + after);
      TrimStartPadded(before, content + after);
      TrimEndPadded(content, after);
    }
  }

  /** `String.prototype.split` with a one-character separator: the pieces
      between the occurrences of `sep`, in order; there is always one more
      piece than there are separators. */
  function Split(s: string, sep: char): (r: seq<string>)
    ensures |r| >= 1
    ensures forall i :: 0 <= i < |r| ==> sep !in r[i]
    decreases |s|
  {
    if s == [] then [[]]
    else
      var rest := Split(s[1..], sep);
      if s[0] == sep then [[]] + rest
      else [[s[0]] + rest[0]] + rest[1..]
  }

  /** `Array.prototype.join`. */
  function Join(parts: seq<string>, sep: string): string
    decreases |parts|
  {
    if |parts| == 0 then []
    else if |parts| == 1 then parts[0]
    else parts[0] + sep + Join(parts[1..], sep)
  }

  /** Joining the pieces of a split with the separator gives back the string. */
  lemma {:induction false} JoinSplit(s: string, sep: char)
    ensures Join(Split(s, sep), [sep]) == s
    decreases |s|
  {
    if s != [] {
      var rest := Split(s[1..], sep);
      JoinSplit(s[1..], sep);
      if s[0] == sep {
        assert Split(s, sep) == [[]] + rest;
        assert Split(s, sep)[1..] == rest;
      } else {
        var r := Split(s, sep);
        assert r == [[s[0]] + rest[0]] + rest[1..];
        if |rest| == 1 {
          assert r == [[s[0]] + rest[0]];
        } else {
          assert r[1..] == rest[1..];
          assert Join(rest, [sep]) == rest[0] + [sep] + Join(rest[1..], [sep]);
        }
      }
    }
  }

  /** Splitting a join of separator-free pieces gives back the pieces. */
  lemma {:induction false} SplitJoin(parts: seq<string>, sep: char)
    requires |parts| >= 1
    requires forall i :: 0 <= i < |parts| ==> sep !in parts[i]
    ensures Split(Join(parts, [sep]), sep) == parts
    decreases |parts|, |parts[0]|
  {
    var p := parts[0];
    if p == [] {
      if |parts| > 1 {
        SplitJoin(parts[1..], sep);
        assert Join(parts, [sep]) == [sep] + Join(parts[1..], [sep]);
        assert [[]] + parts[1..] == parts;
      }
    } else {
      var shorter := [p[1..]] + parts[1..];
      assert forall i :: 1 <= i < |shorter| ==> shorter[i] == parts[i];
      assert sep !in shorter[0] by { assert forall k :: 0 <= k < |p[1..]| ==> p[1..][k] == p[k + 1]; }
      SplitJoin(shorter, sep);
      var j := Join(parts, [sep]);
      if |parts| == 1 {
        assert j == p && j[1..] == p[1..];
      } else {
        assert shorter[1..] == parts[1..];
        assert j == p + [sep] + Join(parts[1..], [sep]);
        assert j[1..] == p[1..] + [sep] + Join(parts[1..], [sep]);
      }
      assert j[1..] == Join(shorter, [sep]);
      assert j[0] == p[0] != sep;
      assert Split(j, sep) == [[p[0]] + p[1..]] + parts[1..];
      assert [p[0]] + p[1..] == p;
    }
  }

  /** Trims every line, keeping their order. */
  function TrimAll(lines: seq<string>): seq<string>
  {
    seq(|lines|, i requires 0 <= i < |lines| => Trim(lines[i]))
  }

  /** The literal part of one piece: its lines, trimmed and re-joined with ''. */
  function StripLines(str: string): string {
    Join(TrimAll(Split(str, '\n')), "")
  }

  /** `args[i] ? args[i] : ''`: an interpolated argument is inserted verbatim
      when it is present and non-empty, and contributes nothing otherwise. */
  function ArgText(args: seq<string>, i: nat): (r: string)
    ensures r == [] <==> i >= |args| || args[i] == []
    ensures r != [] ==> r == args[i]
  {
    if i < |args| && args[i] != [] then args[i] else []
  }

  /** What a literal piece followed by its argument text contributes. */
  function Piece(str: string, arg: string): string {
    StripLines(str) + arg
  }

  /** `Array.prototype.map` with a callback that also takes the index. */
  function MapIndexed(xs: seq<string>, f: (string, nat) -> string): (r: seq<string>)
    ensures |r| == |xs|
  {
    seq(|xs|, i requires 0 <= i < |xs| => f(xs[i], i))
  }

  lemma MapIndexedAppend(xs: seq<string>, x: string, f: (string, nat) -> string)
    ensures MapIndexed(xs + [x], f) == MapIndexed(xs, f) + [f(x, |xs|)]
  {
    var ys := xs + [x];
    forall i | 0 <= i < |ys| ensures MapIndexed(ys, f)[i] == (MapIndexed(xs, f) + [f(x, |xs|)])[i] {
      if i < |xs| {
        assert ys[i] == xs[i];
      }
    }
  }

  /** The callback of the outer `map`: piece `i` followed by its argument text. */
  function PieceOf(args: seq<string>): (string, nat) -> string {
    (str: string, i: nat) => Piece(str, ArgText(args, i))
  }

  function Pieces(strings: seq<string>, args: seq<string>): seq<string>
  {
    MapIndexed(strings, PieceOf(args))
  }

  /** Piece `i` of the outer `map` is literal `i` stripped, then argument `i`. */
  lemma PiecesAt(strings: seq<string>, args: seq<string>, i: nat)
    requires i < |strings|
    ensures |Pieces(strings, args)| == |strings|
    ensures Pieces(strings, args)[i] == StripLines(strings[i]) + ArgText(args, i)
  {
  }

  /** `strip(strings, ...args)`. */
  function Strip(strings: seq<string>, args: seq<string>): string {
    Join(Pieces(strings, args), "")
  }

  lemma {:induction false} JoinEmptyAppend(parts: seq<string>, last: string)
    ensures Join(parts + [last], "") == Join(parts, "") + last
    decreases |parts|
  {
    if |parts| == 1 {
      assert parts + [last] == [parts[0], last];
    } else if |parts| > 1 {
      assert (parts + [last])[1..] == parts[1..] + [last];
      JoinEmptyAppend(parts[1..], last);
    }
  }

  lemma PiecesAppend(strings: seq<string>, str: string, args: seq<string>)
    ensures Pieces(strings + [str], args) == Pieces(strings, args) + [Piece(str, ArgText(args, |strings|))]
  {
    MapIndexedAppend(strings, str, PieceOf(args));
  }

  /** The result is the in-order concatenation of the pieces, with no
      separator: one more piece appends its stripped lines and then its
      argument, untrimmed. */
  lemma StripAppend(strings: seq<string>, str: string, args: seq<string>)
    ensures Strip(strings + [str], args) == Strip(strings, args) + StripLines(str) + ArgText(args, |strings|)
  {
    var ps := Pieces(strings, args);
    var arg := ArgText(args, |strings|);
    var last := Piece(str, arg);
    PiecesAppend(strings, str, args);
    JoinEmptyAppend(ps, last);
    assert Strip(strings + [str], args) == Join(ps, "") + last;
    assert last == StripLines(str) + arg;
  }

  lemma {:induction false} JoinEmptyNoChar(parts: seq<string>, c: char)
    requires forall i :: 0 <= i < |parts| ==> c !in parts[i]
    ensures c !in Join(parts, "")
    decreases |parts|
  {
    if |parts| > 1 {
      JoinEmptyNoChar(parts[1..], c);
    }
  }

  /** No line break of a literal piece survives. */
  lemma StripLinesNoNewline(str: string)
    ensures '\n' !in StripLines(str)
  {
    var lines := Split(str, '\n');
    var trimmed := TrimAll(lines);
    forall i | 0 <= i < |trimmed| ensures '\n' !in trimmed[i] {
      var k := TrimIsInfix(lines[i]);
    }
    JoinEmptyNoChar(trimmed, '\n');
  }

  /** Every line break in the result comes from an argument: without line
      breaks in the arguments, the result has none. */
  lemma StripNoNewline(strings: seq<string>, args: seq<string>)
    requires forall i :: 0 <= i < |args| ==> '\n' !in args[i]
    ensures '\n' !in Strip(strings, args)
  {
    var ps := Pieces(strings, args);
    forall i | 0 <= i < |ps| ensures '\n' !in ps[i] {
      PiecesAt(strings, args, i);
      StripLinesNoNewline(strings[i]);
    }
    JoinEmptyNoChar(ps, '\n');
  }

  /** For a piece written as separator-free lines joined by '\n', the stripped
      piece is exactly those lines, each trimmed, in their original order. */
  lemma StripLinesOfLines(lines: seq<string>)
    requires |lines| >= 1
    requires forall i :: 0 <= i < |lines| ==> '\n' !in lines[i]
    ensures StripLines(Join(lines, "\n")) == Join(TrimAll(lines), "")
  {
    SplitJoin(lines, '\n');
  }

  /** The non-whitespace characters of a string, in order. */
  function Visible(s: string): (r: string)
    ensures |r| <= |s|
  {
    if s == [] then []
    else if IsWhitespace(s[0]) then Visible(s[1..])
    else [s[0]] + Visible(s[1..])
  }

  lemma {:induction false} VisibleAppend(a: string, b: string)
    ensures Visible(a + b) == Visible(a) + Visible(b)
    decreases |a|
  {
    if a == [] {
      assert a + b == b;
    } else {
      assert (a + b)[0] == a[0] && (a + b)[1..] == a[1..] + b;
      VisibleAppend(a[1..], b);
    }
  }

  lemma {:induction false} VisibleOfWhitespace(s: string)
    requires AllWhitespace(s)
    ensures Visible(s) == []
    decreases |s|
  {
    if s != [] {
      VisibleOfWhitespace(s[1..]);
    }
  }

  lemma ThreeSlices(s: string, i: nat, j: nat)
    requires i <= j <= |s|
    ensures s == s[..i] + s[i..j] + s[j..]
  {
  }

  lemma VisibleOfPadded(before: string, middle: string, after: string)
    requires AllWhitespace(before) && AllWhitespace(after)
    ensures Visible(before + middle + after) == Visible(middle)
  {
    VisibleOfWhitespace(before);
    VisibleOfWhitespace(after);
    VisibleAppend(before, middle);
    VisibleAppend(before + middle, after);
  }

  /** Trimming removes whitespace only. */
  lemma VisibleTrim(s: string)
    ensures Visible(Trim(s)) == Visible(s)
  {
    var r := Trim(s);
    var i := TrimIsInfix(s);
    ThreeSlices(s, i, i + |r|);
    VisibleOfPadded(s[..i], r, s[i + |r|..]);
  }

  function VisibleAll(parts: seq<string>): seq<string>
  {
    seq(|parts|, i requires 0 <= i < |parts| => Visible(parts[i]))
  }

  /** Joining with a whitespace separator, then keeping the visible
      characters, is joining the visible characters of each part. */
  lemma {:induction false} VisibleJoin(parts: seq<string>, sep: string)
    requires AllWhitespace(sep)
    ensures Visible(Join(parts, sep)) == Join(VisibleAll(parts), "")
    decreases |parts|
  {
    if |parts| == 1 {
      assert Join(VisibleAll(parts), "") == Visible(parts[0]);
    } else if |parts| > 1 {
      VisibleJoin(parts[1..], sep);
      VisibleAppend(parts[0] + sep, Join(parts[1..], sep));
      VisibleAppend(parts[0], sep);
      VisibleOfWhitespace(sep);
      assert VisibleAll(parts)[1..] == VisibleAll(parts[1..]);
    }
  }

  /** Trimming each line keeps the visible characters of each line. */
  lemma VisibleTrimAll(lines: seq<string>)
    ensures VisibleAll(TrimAll(lines)) == VisibleAll(lines)
  {
    forall i | 0 <= i < |lines| ensures VisibleAll(TrimAll(lines))[i] == VisibleAll(lines)[i] {
      VisibleTrim(lines[i]);
    }
  }

  /** Stripping a piece deletes whitespace and nothing else: its non-whitespace
      characters all survive, in order. */
  lemma StripLinesKeepsVisible(str: string)
    ensures Visible(StripLines(str)) == Visible(str)
  {
    var lines := Split(str, '\n');
    VisibleJoin(TrimAll(lines), "");
    VisibleTrimAll(lines);
    assert AllWhitespace("\n");
    VisibleJoin(lines, "\n");
    JoinSplit(str, '\n');
  }

  /** `n` spaces. */
  function Indent(n: nat): (r: string)
    ensures |r| == n && AllWhitespace(r)
  {
    seq(n, _ => ' ')
  }

  /** Each content line behind its indentation. */
  function IndentedLines(indents: seq<nat>, contents: seq<string>): seq<string>
    requires |indents| == |contents|
  {
    seq(|contents|, i requires 0 <= i < |contents| => Indent(indents[i]) + contents[i])
  }

  /** A template without interpolations is a single piece. */
  lemma StripSinglePiece(str: string)
    ensures Strip([str], []) == StripLines(str)
  {
    PiecesAt([str], [], 0);
    assert Pieces([str], []) == [StripLines(str) + []];
  }

  /** A template written as indented lines, each free of line breaks and of
      whitespace at its ends, strips to the concatenation of the lines'
      contents. */
  lemma StripIndentedTemplate(indents: seq<nat>, contents: seq<string>)
    requires |indents| == |contents| >= 1
    requires forall i :: 0 <= i < |contents| ==> '\n' !in contents[i] && NoEdgeWhitespace(contents[i])
    ensures Strip([Join(IndentedLines(indents, contents), "\n")], []) == Join(contents, "")
  {
    var lines := IndentedLines(indents, contents);
    forall i | 0 <= i < |lines| ensures '\n' !in lines[i] && Trim(lines[i]) == contents[i] {
      var d := Indent(indents[i]);
      assert lines[i] == d + contents[i] + [];
      TrimPadded(d, contents[i], []);
      assert '\n' !in d;
    }
    StripLinesOfLines(lines);
    assert TrimAll(lines) == contents;
    StripSinglePiece(Join(lines, "\n"));
  }

  /** The content of each line of the named-blocks test's template
      (packages/@glimmer/syntax/test/parser-node-test.ts:525-535), and the
      indentation in front of it. */
  const NamedBlocksContents: seq<string> :=
    ["", "<Tab>", "<:header>", "It's a header!", "</:header>", "",
     "<:body as |contents|>", "<div>{{contents}}</div>", "</:body>", "</Tab>", ""]
  const NamedBlocksIndents: seq<nat> := [0, 4, 6, 8, 6, 0, 6, 8, 6, 4, 2]

  /** The template literal: its lines separated by line breaks. */
  function NamedBlocksTemplate(): string {
    Join(IndentedLines(NamedBlocksIndents, NamedBlocksContents), "\n")
  }

  lemma NamedBlocksContentsTight()
    ensures forall i :: 0 <= i < |NamedBlocksContents| ==>
      '\n' !in NamedBlocksContents[i] && NoEdgeWhitespace(NamedBlocksContents[i])
  {
  }

  /** Only a proof step: the left side is the shape `Join` unfolds to on the
      eleven contents (the first, sixth and last are empty), and the lemma
      regroups it into the plain concatenation of the eight non-empty ones. */
  lemma ConcatRegroup(a: string, b: string, c: string, d: string, e: string, f: string, g: string, h: string)
    ensures "" + "" + (a + "" + (b + "" + (c + "" + (d + "" + ("" + "" + (e + "" + (f + "" + (g + "" + (h + "" + ""))))))))) ==
      a + b + c + d + e + f + g + h
  {
  }

  lemma NamedBlocksJoined()
    ensures Join(NamedBlocksContents, "") ==
      "<Tab>" + "<:header>" + "It's a header!" + "</:header>" +
      "<:body as |contents|>" + "<div>{{contents}}</div>" + "</:body>" + "</Tab>"
  {
    assert Join(NamedBlocksContents, "") ==
      "" + "" + ("<Tab>" + "" + ("<:header>" + "" + ("It's a header!" + "" + ("</:header>" + "" + ("" + "" +
      ("<:body as |contents|>" + "" + ("<div>{{contents}}</div>" + "" + ("</:body>" + "" + ("</Tab>" + "" + "")))))))));
    ConcatRegroup("<Tab>", "<:header>", "It's a header!", "</:header>",
      "<:body as |contents|>", "<div>{{contents}}</div>", "</:body>", "</Tab>");
  }

  /** The named-blocks template strips to the one-line markup the test parses,
      `<Tab><:header>It's a header!</:header><:body as |contents|><div>{{contents}}</div></:body></Tab>`
      (written below as the concatenation of its parts). */
  lemma NamedBlocksExample()
    ensures Strip([NamedBlocksTemplate()], []) ==
      "<Tab>" + "<:header>" + "It's a header!" + "</:header>" +
      "<:body as |contents|>" + "<div>{{contents}}</div>" + "</:body>" + "</Tab>"
  {
    NamedBlocksContentsTight();
    StripIndentedTemplate(NamedBlocksIndents, NamedBlocksContents);
    NamedBlocksJoined();
  }
}
