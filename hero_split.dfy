/**
 * `splitTextToChars` of app/components/Hero.tsx: a heading's text is cut at each `'\n'` into
 * line spans, every character becomes one char span, and the whole is written as one
 * `innerHTML` string. `DecodeLines` reads such a string back; the round trip
 * `DecodeLines(SplitTextToChars(t)) == Some(t)` says nothing of the title is lost or reordered.
 */
module HeroSplit {
  import opened Handles

  // ---------------------------------------------------------------------------
  // Cutting at newlines
  // ---------------------------------------------------------------------------

  /** `text.split('\n')`: the runs between newlines, always at least one (possibly empty) part. */
  function SplitLines(s: string): (parts: seq<string>)
    ensures |parts| >= 1
    ensures forall k :: 0 <= k < |parts| ==> '\n' !in parts[k]
    decreases |s|
  {
    if s == [] then [""]
    else
      var rest := SplitLines(s[1..]);
      if s[0] == '\n' then [""] + rest
      else [[s[0]] + rest[0]] + rest[1..]
  }

  /** The parts glued back together with `'\n'` between consecutive ones. */
  function JoinLines(parts: seq<string>): string
    requires |parts| >= 1
  {
    if |parts| == 1 then parts[0] else parts[0] + "\n" + JoinLines(parts[1..])
  }

  /** Splitting loses nothing: joining the parts gives the text back. */
  lemma {:induction false} JoinSplit(s: string)
    ensures JoinLines(SplitLines(s)) == s
    decreases |s|
  {
    if s != [] {
      var rest := SplitLines(s[1..]);
      JoinSplit(s[1..]);
      if s[0] == '\n' {
        assert SplitLines(s)[1..] == rest;
      } else if |rest| > 1 {
        assert SplitLines(s)[1..] == rest[1..];
        assert JoinLines(rest) == rest[0] + "\n" + JoinLines(rest[1..]);
      }
    }
  }

  /** Joining newline-free parts and splitting again gives the same parts. */
  lemma {:induction false} SplitJoin(parts: seq<string>)
    requires |parts| >= 1
    requires forall k :: 0 <= k < |parts| ==> '\n' !in parts[k]
    ensures SplitLines(JoinLines(parts)) == parts
  {
    if |parts| == 1 {
      SplitPrefix(parts[0], "");
      assert parts[0] + "" == parts[0];
    } else {
      SplitJoin(parts[1..]);
      var tail := "\n" + JoinLines(parts[1..]);
      assert JoinLines(parts) == parts[0] + tail;
      SplitPrefix(parts[0], tail);
      assert tail[1..] == JoinLines(parts[1..]);
      assert SplitLines(tail) == [""] + parts[1..];
      assert SplitLines(tail)[0] == "" && SplitLines(tail)[1..] == parts[1..];
      assert parts[0] + "" == parts[0];
      assert [parts[0]] + parts[1..] == parts;
    }
  }

  /** A newline-free prefix is glued onto the first part of what follows it. */
  lemma {:induction false} SplitPrefix(w: string, tail: string)
    requires '\n' !in w
    ensures SplitLines(w + tail) == [w + SplitLines(tail)[0]] + SplitLines(tail)[1..]
    decreases |w|
  {
    if w != [] {
      SplitPrefix(w[1..], tail);
      assert (w + tail)[1..] == w[1..] + tail;
      assert [w[0]] + (w[1..] + SplitLines(tail)[0]) == w + SplitLines(tail)[0];
    } else {
      var t := SplitLines(tail);
      assert w + tail == tail;
      assert w + t[0] == t[0];
      assert [t[0]] + t[1..] == t;
    }
  }

  // ---------------------------------------------------------------------------
  // Escaping one character
  // ---------------------------------------------------------------------------

  /** What one char span stands for: the entities `Escape` writes, or one character other than `<`. */
  function Unescape(safe: string): Option<char>
  {
    if safe == "&nbsp;" then Some(' ')
    else if safe == "&lt;" then Some('<')
    else if safe == "&gt;" then Some('>')
    else if |safe| == 1 && safe[0] != '<' then Some(safe[0])
    else None
  }

  /**
   * The text of one char span: space, `<` and `>` become entities, everything else is copied.
   * The result never holds a `<`, so it cannot open or close markup, and it stands for `c`.
   */
  function Escape(c: char): (safe: string)
    ensures '<' !in safe && '>' !in safe && ' ' !in safe
    ensures Unescape(safe) == Some(c)
  {
    if c == ' ' then "&nbsp;" else if c == '<' then "&lt;" else if c == '>' then "&gt;" else [c]
  }

  // ---------------------------------------------------------------------------
  // The markup written into the heading
  // ---------------------------------------------------------------------------

  const SpanTag: string := "<span"
  const CharOpen: string := SpanTag + " class=\"char inline-block opacity-0 translate-y-8\">"
  const LineOpen: string := SpanTag + " class=\"line inline-block\">"
  const Close: string := "</span>"
  const LineBreak: string := "<br/>"

  function CharSpan(c: char): string
  {
    CharOpen + Escape(c) + Close
  }

  /** `chars.map(c => <char span>).join('')` */
  function CharSpans(part: string): string
  {
    if part == [] then "" else CharSpan(part[0]) + CharSpans(part[1..])
  }

  /** `<span class="line inline-block">${charSpans}</span>` */
  function LineSpan(part: string): string
  {
    LineOpen + CharSpans(part) + Close
  }

  /** What `frag` holds once every part is pushed: a line span per part, `<br/>` between them. */
  function Fragments(parts: seq<string>): seq<string>
    requires |parts| >= 1
  {
    if |parts| == 1 then [LineSpan(parts[0])]
    else [LineSpan(parts[0]), LineBreak] + Fragments(parts[1..])
  }

  /** `frag.join('')` */
  function Concat(frag: seq<string>): string
  {
    if frag == [] then "" else frag[0] + Concat(frag[1..])
  }

  /**
   * The heading markup for `text`, as `splitTextToChars` writes it. It reads back as exactly the
   * original text: every line and every character survives, in order.
   */
  function Render(text: string): (html: string)
    ensures DecodeLines(html) == Some(text)
  {
    DecodeFragments(SplitLines(text));
    JoinSplit(text);
    Concat(Fragments(SplitLines(text)))
  }

  /** Pushing one more part appends a `<br/>` and its line span. */
  lemma {:induction false} FragmentsSnoc(ps: seq<string>, p: string)
    requires |ps| >= 1
    ensures Fragments(ps + [p]) == Fragments(ps) + [LineBreak, LineSpan(p)]
  {
    if |ps| > 1 {
      assert (ps + [p])[1..] == ps[1..] + [p];
      FragmentsSnoc(ps[1..], p);
    } else {
      assert (ps + [p])[1..] == [p];
    }
  }

  /**
   * `frag` holds exactly one line span per part, at the even positions and in order, and exactly
   * one `<br/>` between consecutive parts, at the odd positions: `2 * |parts| - 1` entries.
   */
  lemma {:induction false} FragmentsShape(parts: seq<string>)
    requires |parts| >= 1
    ensures |Fragments(parts)| == 2 * |parts| - 1
    ensures forall k :: 0 <= k < 2 * |parts| - 1 ==>
      Fragments(parts)[k] == if k % 2 == 0 then LineSpan(parts[k / 2]) else LineBreak
  {
    if |parts| > 1 {
      FragmentsShape(parts[1..]);
      var f := Fragments(parts);
      forall k | 0 <= k < 2 * |parts| - 1
        ensures f[k] == if k % 2 == 0 then LineSpan(parts[k / 2]) else LineBreak
      {
        if k >= 2 {
          assert f[k] == Fragments(parts[1..])[k - 2];
          assert (k - 2) / 2 == k / 2 - 1;
        }
      }
    }
  }

  /** After the `<br/>` pushed for part `pi - 1`, pushing part `pi`'s line span extends the prefix by one part. */
  lemma PushLineStep(parts: seq<string>, pi: int)
    requires 0 < pi < |parts|
    ensures (Fragments(parts[..pi]) + [LineBreak]) + [LineSpan(parts[pi])] == Fragments(parts[..pi + 1])
  {
    var line := LineSpan(parts[pi]);
    FragmentsSnoc(parts[..pi], parts[pi]);
    assert parts[..pi] + [parts[pi]] == parts[..pi + 1];
    SeqAssoc(Fragments(parts[..pi]), [LineBreak], [line]);
    PairConcat(LineBreak, line);
  }

  lemma SeqAssoc<T>(a: seq<T>, b: seq<T>, c: seq<T>)
    ensures (a + b) + c == a + (b + c)
  {
  }

  lemma PairConcat<T>(a: T, b: T)
    ensures [a] + [b] == [a, b]
  {
  }

  /** `splitTextToChars`: builds `frag` part by part and joins it into the heading's `innerHTML`. */
  method SplitTextToChars(text: string) returns (html: string)
    ensures html == Render(text)
    ensures DecodeLines(html) == Some(text)
  {
    var parts := SplitLines(text);
    var frag: seq<string> := [];
    for pi := 0 to |parts|
      invariant pi == 0 ==> frag == []
      invariant 0 < pi < |parts| ==> frag == Fragments(parts[..pi]) + [LineBreak]
      invariant pi == |parts| ==> frag == Fragments(parts)
    {
      // `<span class="line inline-block">${charSpans}</span>`
      var line := LineSpan(parts[pi]);
      if pi > 0 {
        PushLineStep(parts, pi);
      } else {
        assert parts[..1] == [parts[0]];
      }
      frag := frag + [line];
      if pi < |parts| - 1 {
        frag := frag + [LineBreak];
      }
      if pi + 1 == |parts| {
        assert parts[..pi + 1] == parts;
      }
    }
    html := Concat(frag);
  }

  // ---------------------------------------------------------------------------
  // Reading the markup back
  // ---------------------------------------------------------------------------

  predicate StartsWith(s: string, p: string)
  {
    |p| <= |s| && s[..|p|] == p
  }

  /** The longest prefix of `s` without a `<`: the content of a span up to its closing tag. */
  function TakeUntilLt(s: string): (t: string)
    ensures |t| <= |s| && t == s[..|t|]
  {
    if s == [] || s[0] == '<' then [] else [s[0]] + TakeUntilLt(s[1..])
  }

  /** Reads consecutive char spans off the front of `s`; returns their characters and what follows. */
  function DecodeChars(s: string): (r: (string, string))
    ensures |r.1| <= |s|
    decreases |s|
  {
    if !StartsWith(s, CharOpen) then ([], s)
    else
      var body := s[|CharOpen|..];
      var safe := TakeUntilLt(body);
      var after := body[|safe|..];
      match Unescape(safe)
      case None => ([], s)
      case Some(c) =>
        if !StartsWith(after, Close) then ([], s)
        else
          var more := DecodeChars(after[|Close|..]);
          ([c] + more.0, more.1)
  }

  /** Reads line spans separated by `<br/>`; the title they stand for, lines joined by `'\n'`. */
  function DecodeLines(s: string): Option<string>
    decreases |s|
  {
    if !StartsWith(s, LineOpen) then None
    else
      var r := DecodeChars(s[|LineOpen|..]);
      if !StartsWith(r.1, Close) then None
      else
        var after := r.1[|Close|..];
        if after == [] then Some(r.0)
        else if !StartsWith(after, LineBreak) then None
        else match DecodeLines(after[|LineBreak|..])
          case None => None
          case Some(more) => Some(r.0 + "\n" + more)
  }

  lemma StartsWithAppend(p: string, t: string)
    ensures StartsWith(p + t, p) && (p + t)[|p|..] == t
  {
    assert (p + t)[..|p|] == p;
  }

  lemma {:induction false} TakeUntilLtPrefix(a: string, b: string)
    requires '<' !in a
    requires b != [] && b[0] == '<'
    ensures TakeUntilLt(a + b) == a
    decreases |a|
  {
    if a == [] {
      assert a + b == b;
    } else {
      assert (a + b)[1..] == a[1..] + b;
      TakeUntilLtPrefix(a[1..], b);
    }
  }

  /** One char span is read off as its character. */
  lemma DecodeCharStep(c: char, x: string)
    ensures DecodeChars(CharSpan(c) + x) == ([c] + DecodeChars(x).0, DecodeChars(x).1)
  {
    var safe := Escape(c);
    var s := CharSpan(c) + x;
    assert s == CharOpen + (safe + (Close + x));
    StartsWithAppend(CharOpen, safe + (Close + x));
    var body := s[|CharOpen|..];
    assert body == safe + (Close + x);
    assert Close[0] == '<';
    TakeUntilLtPrefix(safe, Close + x);
    StartsWithAppend(safe, Close + x);
    assert body[|safe|..] == Close + x;
    StartsWithAppend(Close, x);
  }

  /** Reading characters stops at once before anything that is not a char span. */
  lemma DecodeNoCharSpan(tail: string)
    requires !StartsWith(tail, CharOpen)
    ensures DecodeChars(tail) == ([], tail)
  {
  }

  lemma ConcatAssoc(a: string, b: string, t: string)
    ensures (a + b) + t == a + (b + t)
  {
  }

  lemma CharSpansCons(p: string, tail: string)
    requires p != []
    ensures CharSpans(p) + tail == CharSpan(p[0]) + (CharSpans(p[1..]) + tail)
  {
    ConcatAssoc(CharSpan(p[0]), CharSpans(p[1..]), tail);
  }

  /** The char spans of `p`, followed by anything but another char span, read back as `p`. */
  lemma {:induction false} DecodeCharSpans(p: string, tail: string)
    requires !StartsWith(tail, CharOpen)
    ensures DecodeChars(CharSpans(p) + tail) == (p, tail)
    decreases |p|
  {
    if p == [] {
      assert CharSpans(p) + tail == tail;
      DecodeNoCharSpan(tail);
    } else {
      var x := CharSpans(p[1..]) + tail;
      CharSpansCons(p, tail);
      DecodeCharStep(p[0], x);
      DecodeCharSpans(p[1..], tail);
      assert [p[0]] + p[1..] == p;
    }
  }

  /** A closing tag does not open a char span, so reading characters stops at it. */
  lemma CloseIsNoCharSpan(rest: string)
    ensures !StartsWith(Close + rest, CharOpen)
  {
    assert CharOpen[1] == 's';
    assert (Close + rest)[1] == '/';
  }

  /** A line span opens `s`: its characters are read, and the closing tag and the rest follow. */
  lemma LineHead(p: string, rest: string)
    ensures StartsWith(LineSpan(p) + rest, LineOpen)
    ensures (LineSpan(p) + rest)[|LineOpen|..] == CharSpans(p) + (Close + rest)
  {
    var body := CharSpans(p) + (Close + rest);
    calc {
      LineSpan(p) + rest;
      (LineOpen + CharSpans(p) + Close) + rest;
      LineOpen + body;
    }
    StartsWithAppend(LineOpen, body);
  }

  /** A line span on its own reads back as its part. */
  lemma DecodeLastLine(p: string)
    ensures DecodeLines(LineSpan(p)) == Some(p)
  {
    LineHead(p, "");
    CloseIsNoCharSpan("");
    DecodeCharSpans(p, Close + "");
    assert LineSpan(p) + "" == LineSpan(p);
    StartsWithAppend(Close, "");
    assert Close + "" == Close;
  }

  /** A line span followed by `<br/>` reads back as its part, a newline, and what follows. */
  lemma DecodeLineThenBreak(p: string, y: string)
    ensures DecodeLines(LineSpan(p) + (LineBreak + y)) ==
      match DecodeLines(y)
      case None => None
      case Some(more) => Some(p + "\n" + more)
  {
    LineHead(p, LineBreak + y);
    CloseIsNoCharSpan(LineBreak + y);
    DecodeCharSpans(p, Close + (LineBreak + y));
    StartsWithAppend(Close, LineBreak + y);
    StartsWithAppend(LineBreak, y);
  }

  /** Concatenated fragments read back as the parts joined by `'\n'`. */
  lemma {:induction false} DecodeFragments(parts: seq<string>)
    requires |parts| >= 1
    ensures DecodeLines(Concat(Fragments(parts))) == Some(JoinLines(parts))
  {
    if |parts| == 1 {
      assert Concat(Fragments(parts)) == LineSpan(parts[0]);
      DecodeLastLine(parts[0]);
    } else {
      var f := Fragments(parts);
      assert f[1..] == [LineBreak] + Fragments(parts[1..]);
      assert f[1..][1..] == Fragments(parts[1..]);
      var y := Concat(Fragments(parts[1..]));
      assert Concat(f) == LineSpan(parts[0]) + (LineBreak + y);
      DecodeLineThenBreak(parts[0], y);
      DecodeFragments(parts[1..]);
    }
  }
}
