/**
 * What the parser does over a whole byte string: `Run` feeds the bytes one at
 * a time through `Step` (the transition that `RequestParser.Consume` is proved
 * to perform) and collects the status returned for each byte. The lemmas state
 * what each part of a request does to the parser and the request, and then
 * what a complete request does.
 */
module ParserRuns {
  import opened Wrappers
  import opened Ascii
  import opened HttpRequest
  import opened Parser

  /** Feeds `s` byte by byte: the final configuration and the status of every byte, in order. */
  function Run(c: Config, s: string): (r: (Config, seq<ResultType>))
    ensures |r.1| == |s|
    decreases |s|
  {
    if s == [] then (c, [])
    else
      var first := Step(c, s[0]);
      var rest := Run(first.0, s[1..]);
      (rest.0, [first.1] + rest.1)
  }

  function Processings(n: nat): (rs: seq<ResultType>)
    ensures |rs| == n && forall i | 0 <= i < n :: rs[i] == Processing
  {
    seq(n, _ => Processing)
  }

  lemma ProcessingsAdd(a: nat, b: nat, n: nat)
    requires n == a + b
    ensures Processings(a) + Processings(b) == Processings(n)
  {
    assert forall i | 0 <= i < n :: (Processings(a) + Processings(b))[i] == Processing;
  }

  function WithBuffer(c: Config, b: string): Config
  {
    c.(parser := c.parser.(buffer := b))
  }

  /** Feeding `a` and then `b` is feeding `a + b`. */
  lemma {:induction false} RunAppend(c: Config, a: string, b: string)
    ensures Run(c, a + b) == (Run(Run(c, a).0, b).0, Run(c, a).1 + Run(Run(c, a).0, b).1)
    decreases |a|
  {
    if a == [] {
      assert a + b == b;
      assert Run(c, a) == (c, []);
      assert [] + Run(c, b).1 == Run(c, b).1;
    } else {
      assert (a + b)[0] == a[0] && (a + b)[1..] == a[1..] + b;
      var (c1, r1) := Step(c, a[0]);
      RunAppend(c1, a[1..], b);
      assert Run(c, a + b) == (Run(c1, a[1..] + b).0, [r1] + Run(c1, a[1..] + b).1);
      assert Run(c, a) == (Run(c1, a[1..]).0, [r1] + Run(c1, a[1..]).1);
      var (d, xs) := Run(c1, a[1..]);
      var ys := Run(d, b).1;
      assert [r1] + (xs + ys) == ([r1] + xs) + ys;
    }
  }

  /** Each byte of `s`, fed in turn, is appended to the buffer and nothing else changes. */
  ghost predicate AppendsAll(c: Config, s: string)
  {
    forall i | 0 <= i < |s| ::
      Step(WithBuffer(c, c.parser.buffer + s[..i]), s[i]) == (WithBuffer(c, c.parser.buffer + s[..i] + [s[i]]), Processing)
  }

  lemma {:induction false} AppendRun(c: Config, s: string)
    requires AppendsAll(c, s)
    ensures Run(c, s) == (WithBuffer(c, c.parser.buffer + s), Processings(|s|))
    decreases |s|
  {
    if s == [] {
      assert c.parser.buffer + s == c.parser.buffer;
    } else {
      assert s[..0] == [] && c.parser.buffer + s[..0] == c.parser.buffer;
      var c1 := WithBuffer(c, c.parser.buffer + s[..1]);
      assert Step(c, s[0]) == (c1, Processing) by {
        assert c.parser.buffer + s[..1] == c.parser.buffer + s[..0] + [s[0]];
      }
      forall i | 0 <= i < |s[1..]|
        ensures Step(WithBuffer(c1, c1.parser.buffer + s[1..][..i]), s[1..][i])
             == (WithBuffer(c1, c1.parser.buffer + s[1..][..i] + [s[1..][i]]), Processing)
      {
        assert c1.parser.buffer + s[1..][..i] == c.parser.buffer + s[..i + 1];
        assert s[1..][i] == s[i + 1];
      }
      AppendRun(c1, s[1..]);
      assert c1.parser.buffer + s[1..] == c.parser.buffer + s;
      assert [Processing] + Processings(|s| - 1) == Processings(|s|);
    }
  }

  /** Each byte of `s` leaves everything as it is. */
  ghost predicate IgnoresAll(c: Config, s: string)
  {
    forall i | 0 <= i < |s| :: Step(c, s[i]) == (c, Processing)
  }

  lemma {:induction false} IgnoreRun(c: Config, s: string)
    requires IgnoresAll(c, s)
    ensures Run(c, s) == (c, Processings(|s|))
    decreases |s|
  {
    if s != [] {
      assert Step(c, s[0]) == (c, Processing);
      IgnoreRun(c, s[1..]);
      assert [Processing] + Processings(|s| - 1) == Processings(|s|);
    }
  }

  lemma RunConcat(c: Config, a: string, b: string, d: Config, xs: seq<ResultType>, e: Config, ys: seq<ResultType>)
    requires Run(c, a) == (d, xs) && Run(d, b) == (e, ys)
    ensures Run(c, a + b) == (e, xs + ys)
  {
    RunAppend(c, a, b);
  }

  lemma RunConcat3(c: Config, a: string, b: string, e: string, c1: Config, xs: seq<ResultType>,
                   c2: Config, ys: seq<ResultType>, c3: Config, zs: seq<ResultType>)
    requires Run(c, a) == (c1, xs) && Run(c1, b) == (c2, ys) && Run(c2, e) == (c3, zs)
    ensures Run(c, a + b + e) == (c3, xs + ys + zs)
  {
    RunConcat(c, a, b, c1, xs, c2, ys);
    RunConcat(c, a + b, e, c2, xs + ys, c3, zs);
  }

  lemma RunOne(c: Config, x: char)
    ensures Run(c, [x]) == (Step(c, x).0, [Step(c, x).1])
  {
    var d := Step(c, x).0;
    assert [x][0] == x && [x][1..] == [];
    assert Run(d, []) == (d, []);
    assert [Step(c, x).1] + [] == [Step(c, x).1];
  }

  /**
   * Bytes that are skipped, then a token whose first byte moves to `d` with
   * that byte as the buffer and whose other bytes are appended to it.
   */
  lemma {:induction false} SkipThenCollectRun(c: Config, sp: string, d: Config, u: string)
    requires IgnoresAll(c, sp)
    requires |u| > 0 && Step(c, u[0]) == (WithBuffer(d, [u[0]]), Processing)
    requires AppendsAll(WithBuffer(d, [u[0]]), u[1..])
    ensures Run(c, sp + u) == (WithBuffer(d, u), Processings(|sp| + |u|))
  {
    IgnoreRun(c, sp);
    CollectRun(c, d, u);
    RunConcat(c, sp, u, c, Processings(|sp|), WithBuffer(d, u), Processings(|u|));
    ProcessingsAdd(|sp|, |u|, |sp| + |u|);
  }

  /** A token whose first byte moves to `d` with that byte as the buffer and whose other bytes are appended to it. */
  lemma {:induction false} CollectRun(c: Config, d: Config, u: string)
    requires |u| > 0 && Step(c, u[0]) == (WithBuffer(d, [u[0]]), Processing)
    requires AppendsAll(WithBuffer(d, [u[0]]), u[1..])
    ensures Run(c, u) == (WithBuffer(d, u), Processings(|u|))
  {
    var c1 := WithBuffer(d, [u[0]]);
    AppendRun(c1, u[1..]);
    assert c1.parser.buffer + u[1..] == u;
    assert [Processing] + Processings(|u| - 1) == Processings(|u|);
  }

  /** The configuration in which the first byte of a request is handled: reset, then in Method. */
  function Begin(c: Config): Config
  {
    Goto(ResetStep(c), Method)
  }

  /**
   * From Start, an upper-case token and the byte after it: every letter is
   * accepted, a space ends the token (recording it and its table entry), and
   * any other byte is an error.
   */
  lemma {:induction false} MethodTokenRun(c: Config, t: string, x: char)
    requires c.parser.state == Start
    requires forall i | 0 <= i < |t| :: IsUpperAlpha(t[i])
    requires !IsUpperAlpha(x)
    ensures Run(c, t + [x]).1 == Processings(|t|) + [if IsSpace(x) then Processing else Error]
    ensures IsSpace(x) ==>
      Run(c, t + [x]).0 == Config(Begin(c).parser.(state := Space1, buffer := []),
                                  Begin(c).request.(httpMethod := LookupMethod(t), methodString := t))
  {
    if t == [] {
      RunOne(c, x);
    } else {
      MethodLettersRun(c, t);
      RunThen(c, t, x);
    }
  }

  /** The letters of a method token, from Start: the parser is reset and collects them. */
  lemma {:induction false} MethodLettersRun(c: Config, t: string)
    requires c.parser.state == Start
    requires |t| > 0 && forall i | 0 <= i < |t| :: IsUpperAlpha(t[i])
    ensures Run(c, t) == (WithBuffer(Begin(c), t), Processings(|t|))
  {
    var c1 := WithBuffer(Begin(c), [t[0]]);
    assert Step(c, t[0]) == (c1, Processing) by {
      assert Begin(c).parser.buffer + [t[0]] == [t[0]];
    }
    forall i | 0 <= i < |t[1..]|
      ensures Step(WithBuffer(c1, c1.parser.buffer + t[1..][..i]), t[1..][i])
           == (WithBuffer(c1, c1.parser.buffer + t[1..][..i] + [t[1..][i]]), Processing)
    {
      assert IsUpperAlpha(t[1..][i]) by { assert t[1..][i] == t[i + 1]; }
    }
    SkipThenCollectRun(c, [], Begin(c), t);
    assert [] + t == t;
  }

  /** Feeding `a` and then one more byte. */
  lemma RunThen(c: Config, a: string, x: char)
    ensures var (d, xs) := Run(c, a);
      Run(c, a + [x]) == (Step(d, x).0, xs + [Step(d, x).1])
  {
    RunAppend(c, a, [x]);
    RunOne(Run(c, a).0, x);
  }

  /**
   * From Space1 with an empty buffer: spaces are skipped, then every byte up to
   * the next space is the URL, stored unchanged.
   */
  lemma {:induction false} UrlRun(c: Config, sp: string, u: string)
    requires c.parser.state == Space1 && c.parser.buffer == []
    requires forall i | 0 <= i < |sp| :: IsSpace(sp[i])
    requires |u| > 0 && forall i | 0 <= i < |u| :: !IsSpace(u[i])
    ensures Run(c, sp + u + " ") == (Config(c.parser.(state := Space2), c.request.(url := u)), Processings(|sp| + |u| + 1))
  {
    UrlTextRun(c, sp, u);
    RunThen(c, sp + u, ' ');
    var c2 := WithBuffer(Goto(c, Url), u);
    assert Step(c2, ' ') == (Config(c.parser.(state := Space2), c.request.(url := u)), Processing);
    assert sp + u + " " == sp + u + [' '];
    assert Processings(1) == [Processing];
    ProcessingsAdd(|sp| + |u|, 1, |sp| + |u| + 1);
  }

  /** The spaces and the URL itself, collected in the Url state. */
  lemma {:induction false} UrlTextRun(c: Config, sp: string, u: string)
    requires c.parser.state == Space1 && c.parser.buffer == []
    requires forall i | 0 <= i < |sp| :: IsSpace(sp[i])
    requires |u| > 0 && forall i | 0 <= i < |u| :: !IsSpace(u[i])
    ensures Run(c, sp + u) == (WithBuffer(Goto(c, Url), u), Processings(|sp| + |u|))
  {
    var c1 := WithBuffer(Goto(c, Url), [u[0]]);
    assert IgnoresAll(c, sp) by {
      forall i | 0 <= i < |sp| ensures Step(c, sp[i]) == (c, Processing) {
        assert IsSpace(sp[i]);
      }
    }
    assert Step(c, u[0]) == (c1, Processing) by {
      assert c.parser.buffer + [u[0]] == [u[0]];
    }
    forall i | 0 <= i < |u[1..]|
      ensures Step(WithBuffer(c1, c1.parser.buffer + u[1..][..i]), u[1..][i])
           == (WithBuffer(c1, c1.parser.buffer + u[1..][..i] + [u[1..][i]]), Processing)
    {
      assert !IsSpace(u[1..][i]) by { assert u[1..][i] == u[i + 1]; }
    }
    SkipThenCollectRun(c, sp, Goto(c, Url), u);
  }

  /**
   * From Space2 with an empty buffer: spaces are skipped, then the protocol
   * word is collected (its first byte unchecked, the rest upper-case letters).
   * The byte after it is accepted only when it is '/' and the word is exactly
   * "HTTP", which moves to Version with an empty buffer.
   */
  lemma {:induction false} HttpWordRun(c: Config, sp: string, w: string, x: char)
    requires c.parser.state == Space2 && c.parser.buffer == []
    requires forall i | 0 <= i < |sp| :: IsSpace(sp[i])
    requires |w| > 0 && !IsSpace(w[0]) && forall i | 1 <= i < |w| :: IsUpperAlpha(w[i])
    requires !IsUpperAlpha(x)
    ensures Run(c, sp + w + [x]).1
         == Processings(|sp| + |w|) + [if IsSlash(x) && w == "HTTP" then Processing else Error]
    ensures IsSlash(x) && w == "HTTP" ==> Run(c, sp + w + [x]).0 == Goto(c, Version)
  {
    HttpTextRun(c, sp, w);
    RunThen(c, sp + w, x);
    var c2 := WithBuffer(Goto(c, Http), w);
    if IsSlash(x) && w == "HTTP" {
      assert Step(c2, x) == (Goto(c, Version), Processing);
    }
  }

  /** The spaces and the protocol word, collected in the Http state. */
  lemma {:induction false} HttpTextRun(c: Config, sp: string, w: string)
    requires c.parser.state == Space2 && c.parser.buffer == []
    requires forall i | 0 <= i < |sp| :: IsSpace(sp[i])
    requires |w| > 0 && !IsSpace(w[0]) && forall i | 1 <= i < |w| :: IsUpperAlpha(w[i])
    ensures Run(c, sp + w) == (WithBuffer(Goto(c, Http), w), Processings(|sp| + |w|))
  {
    var c1 := WithBuffer(Goto(c, Http), [w[0]]);
    assert IgnoresAll(c, sp) by {
      forall i | 0 <= i < |sp| ensures Step(c, sp[i]) == (c, Processing) {
        assert IsSpace(sp[i]);
      }
    }
    assert Step(c, w[0]) == (c1, Processing) by {
      assert c.parser.buffer + [w[0]] == [w[0]];
    }
    forall i | 0 <= i < |w[1..]|
      ensures Step(WithBuffer(c1, c1.parser.buffer + w[1..][..i]), w[1..][i])
           == (WithBuffer(c1, c1.parser.buffer + w[1..][..i] + [w[1..][i]]), Processing)
    {
      assert IsUpperAlpha(w[1..][i]) by { assert w[1..][i] == w[i + 1]; }
    }
    SkipThenCollectRun(c, sp, Goto(c, Http), w);
  }

  /**
   * From Version with an empty buffer: digits and dots are collected, and the
   * first newline byte accepts exactly a digit, '.', a digit, recording both
   * digits and the token and starting the line-end buffer with that byte.
   */
  lemma {:induction false} VersionRun(c: Config, v: string, n: char)
    requires c.parser.state == Version && c.parser.buffer == []
    requires forall i | 0 <= i < |v| :: IsFloat(v[i])
    requires IsNewLine(n)
    ensures var ok := |v| == 3 && IsDigit(v[0]) && v[1] == '.' && IsDigit(v[2]);
      && Run(c, v + [n]).1 == Processings(|v|) + [if ok then Processing else Error]
      && (ok ==> Run(c, v + [n]).0
                 == Config(c.parser.(state := NewLine, buffer := [n]),
                           c.request.(versionMajor := v[0] as int - '0' as int,
                                      versionMinor := v[2] as int - '0' as int, versionString := v)))
  {
    forall i | 0 <= i < |v|
      ensures Step(WithBuffer(c, c.parser.buffer + v[..i]), v[i]) == (WithBuffer(c, c.parser.buffer + v[..i] + [v[i]]), Processing)
    {
      assert IsFloat(v[i]);
    }
    AppendRun(c, v);
    assert c.parser.buffer + v == v;
    RunThen(c, v, n);
    VersionEnd(c, v, n);
  }

  /** The newline byte that ends the version, with the version text in the buffer. */
  lemma VersionEnd(c: Config, v: string, n: char)
    requires c.parser.state == Version && IsNewLine(n)
    ensures var ok := |v| == 3 && IsDigit(v[0]) && v[1] == '.' && IsDigit(v[2]);
      && Step(WithBuffer(c, v), n).1 == (if ok then Processing else Error)
      && (ok ==> Step(WithBuffer(c, v), n).0
                 == Config(c.parser.(state := NewLine, buffer := [n]),
                           c.request.(versionMajor := v[0] as int - '0' as int,
                                      versionMinor := v[2] as int - '0' as int, versionString := v)))
  {
  }

  /** In Version, a byte that is neither a digit, a dot nor a newline changes nothing. */
  lemma {:induction false} VersionSkipsOtherBytes(c: Config, s: string)
    requires c.parser.state == Version
    requires forall i | 0 <= i < |s| :: !IsFloat(s[i]) && !IsNewLine(s[i])
    ensures Run(c, s) == (c, Processings(|s|))
  {
    IgnoreRun(c, s);
  }

  /**
   * After the request line: the newline bytes are collected, and the first
   * other byte is accepted only when the collected run is exactly CR LF; it then
   * starts the first header key, entering the Key sub-state without any check.
   */
  lemma {:induction false} LineEndRun(c: Config, w: string, x: char)
    requires c.parser.state == NewLine
    requires forall i | 0 <= i < |w| :: IsNewLine(w[i])
    requires !IsNewLine(x)
    ensures var ok := c.parser.buffer + w == "\r\n";
      && Run(c, w + [x]).1 == Processings(|w|) + [if ok then Processing else Error]
      && (ok ==> Run(c, w + [x]).0 == c.(parser := c.parser.(buffer := [x], state := Headers, headerState := Key)))
  {
    forall i | 0 <= i < |w|
      ensures Step(WithBuffer(c, c.parser.buffer + w[..i]), w[i])
           == (WithBuffer(c, c.parser.buffer + w[..i] + [w[i]]), Processing)
    {
    }
    AppendRun(c, w);
    RunThen(c, w, x);
  }

  /** A name byte may appear in a header key: anything but ':' and a space. */
  predicate KeyByte(ch: char)
  {
    !IsCollon(ch) && !IsSpace(ch)
  }

  /** In the Key sub-state, every key byte is appended to the buffer. */
  lemma {:induction false} KeyRun(c: Config, k: string)
    requires c.parser.state == Headers && c.parser.headerState == Key
    requires forall i | 0 <= i < |k| :: KeyByte(k[i])
    ensures Run(c, k) == (WithBuffer(c, c.parser.buffer + k), Processings(|k|))
  {
    forall i | 0 <= i < |k|
      ensures Step(WithBuffer(c, c.parser.buffer + k[..i]), k[i])
           == (WithBuffer(c, c.parser.buffer + k[..i] + [k[i]]), Processing)
    {
      assert KeyByte(k[i]);
    }
    AppendRun(c, k);
  }

  /** A space inside a header key, before its ':', is an error. */
  lemma {:induction false} KeyRejectsSpace(c: Config, k: string)
    requires c.parser.state == Headers && c.parser.headerState == Key
    requires forall i | 0 <= i < |k| :: KeyByte(k[i])
    ensures Run(c, k + " ").1 == Processings(|k|) + [Error]
  {
    KeyRun(c, k);
    RunThen(c, k, ' ');
  }

  /** The key bytes and the ':' that ends them: the name is recorded and its kind looked up. */
  lemma {:induction false} KeyColonRun(c: Config, k: string)
    requires c.parser.state == Headers && c.parser.headerState == Key
    requires forall i | 0 <= i < |k| :: KeyByte(k[i])
    ensures var name := c.parser.buffer + k;
      Run(c, k + ":") == (c.(parser := c.parser.(importantHeader := KindAfterKey(name, c.parser.importantHeader),
                                                 currentHeader := name, buffer := [], headerState := Space)),
                          Processings(|k| + 1))
  {
    var name := c.parser.buffer + k;
    KeyRun(c, k);
    RunThen(c, k, ':');
    assert k + ":" == k + [':'];
    assert Processings(1) == [Processing];
    ProcessingsAdd(|k|, 1, |k| + 1);
  }

  /**
   * From the Space sub-state with an empty buffer: spaces are skipped, the value
   * is collected, and its first newline byte moves to HeaderNewLine.
   */
  lemma {:induction false} ValueRun(c: Config, sp: string, v: string, n1: char)
    requires c.parser.state == Headers && c.parser.headerState == Space && c.parser.buffer == []
    requires forall i | 0 <= i < |sp| :: IsSpace(sp[i])
    requires forall i | 0 <= i < |v| :: !IsNewLine(v[i])
    requires v == [] || !IsSpace(v[0])
    requires IsNewLine(n1)
    ensures Run(c, sp + v + [n1]) == (WithBuffer(c.(parser := c.parser.(headerState := HeaderNewLine)), v), Processings(|sp| + |v| + 1))
  {
    var c3 := if v == [] then c else WithBuffer(c.(parser := c.parser.(headerState := Value)), v);
    if v == [] {
      SpacesSkipped(c, sp);
      IgnoreRun(c, sp);
      assert sp + v == sp;
    } else {
      ValueTextRun(c, sp, v);
    }
    assert Step(c3, n1) == (WithBuffer(c.(parser := c.parser.(headerState := HeaderNewLine)), v), Processing) by {
      if v == [] {
        assert c.parser.buffer == v;
      }
    }
    RunThen(c, sp + v, n1);
    assert Processings(1) == [Processing];
    ProcessingsAdd(|sp| + |v|, 1, |sp| + |v| + 1);
  }

  /** In the Space sub-state, spaces change nothing. */
  lemma SpacesSkipped(c: Config, sp: string)
    requires c.parser.state == Headers && c.parser.headerState == Space
    requires forall i | 0 <= i < |sp| :: IsSpace(sp[i])
    ensures IgnoresAll(c, sp)
  {
    forall i | 0 <= i < |sp| ensures Step(c, sp[i]) == (c, Processing) {
      assert IsSpace(sp[i]);
    }
  }

  /** The spaces after the ':' and a non-empty value, collected in the Value sub-state. */
  lemma {:induction false} ValueTextRun(c: Config, sp: string, v: string)
    requires c.parser.state == Headers && c.parser.headerState == Space && c.parser.buffer == []
    requires forall i | 0 <= i < |sp| :: IsSpace(sp[i])
    requires |v| > 0 && !IsSpace(v[0]) && forall i | 0 <= i < |v| :: !IsNewLine(v[i])
    ensures Run(c, sp + v) == (WithBuffer(c.(parser := c.parser.(headerState := Value)), v), Processings(|sp| + |v|))
  {
    var d := c.(parser := c.parser.(headerState := Value));
    var d1 := WithBuffer(d, [v[0]]);
    SpacesSkipped(c, sp);
    assert Step(c, v[0]) == (d1, Processing) by {
      assert c.parser.buffer + [v[0]] == [v[0]];
    }
    forall i | 0 <= i < |v[1..]|
      ensures Step(WithBuffer(d1, d1.parser.buffer + v[1..][..i]), v[1..][i])
           == (WithBuffer(d1, d1.parser.buffer + v[1..][..i] + [v[1..][i]]), Processing)
    {
      assert !IsNewLine(v[1..][i]) by { assert v[1..][i] == v[i + 1]; }
    }
    SkipThenCollectRun(c, sp, d, v);
  }

  /**
   * One header line from the Key sub-state: the key bytes, ':', optional
   * spaces, a value without newline bytes (not starting with a space) and two
   * newline bytes. The name is the buffer so far followed by the key bytes;
   * the line is rejected when its second line-end byte is not a newline byte
   * or when its dispatch fails, and is otherwise dispatched and appended to
   * the request's headers, leaving the sub-state HeaderStart.
   */
  lemma {:induction false} HeaderLineRun(c: Config, k: string, sp: string, v: string, n1: char, n2: char)
    requires c.parser.state == Headers && c.parser.headerState == Key
    requires forall i | 0 <= i < |k| :: KeyByte(k[i])
    requires forall i | 0 <= i < |sp| :: IsSpace(sp[i])
    requires forall i | 0 <= i < |v| :: !IsNewLine(v[i])
    requires v == [] || !IsSpace(v[0])
    requires IsNewLine(n1)
    ensures var name := c.parser.buffer + k;
      var d := Dispatch(c.request, KindAfterKey(name, c.parser.importantHeader), v);
      var text := k + ":" + sp + v + [n1, n2];
      && Run(c, text).1 == Processings(|text| - 1) + [if IsNewLine(n2) && d.Some? then Processing else Error]
      && (IsNewLine(n2) && d.Some? ==>
            Run(c, text).0 == Config(c.parser.(importantHeader := NoHeader, currentHeader := [], buffer := [], headerState := HeaderStart),
                                     d.value.(headers := d.value.headers + [Header(name, v)])))
  {
    var name := c.parser.buffer + k;
    KeyColonRun(c, k);
    var c2 := c.(parser := c.parser.(importantHeader := KindAfterKey(name, c.parser.importantHeader),
                                     currentHeader := name, buffer := [], headerState := Space));
    ValueRun(c2, sp, v, n1);
    var c4 := WithBuffer(c2.(parser := c2.parser.(headerState := HeaderNewLine)), v);
    RunConcat(c, k + ":", sp + v + [n1], c2, Processings(|k| + 1), c4, Processings(|sp| + |v| + 1));
    ProcessingsAdd(|k| + 1, |sp| + |v| + 1, |k| + |sp| + |v| + 2);
    assert k + ":" + (sp + v + [n1]) == k + ":" + sp + v + [n1];
    RunThen(c, k + ":" + sp + v + [n1], n2);
    assert k + ":" + sp + v + [n1] + [n2] == k + ":" + sp + v + [n1, n2];
    HeaderEnd(c4, n2);
  }

  /** The second line-end byte of a header line, with the line's value in the buffer. */
  lemma HeaderEnd(c: Config, n2: char)
    requires c.parser.state == Headers && c.parser.headerState == HeaderNewLine
    ensures var d := Dispatch(c.request, c.parser.importantHeader, c.parser.buffer);
      && Step(c, n2).1 == (if IsNewLine(n2) && d.Some? then Processing else Error)
      && (IsNewLine(n2) && d.Some? ==>
            Step(c, n2).0 == Config(c.parser.(importantHeader := NoHeader, currentHeader := [], buffer := [], headerState := HeaderStart),
                                    d.value.(headers := d.value.headers + [Header(c.parser.currentHeader, c.parser.buffer)])))
  {
  }

  /** Two configurations that handle the first byte of `s` alike handle all of `s` alike. */
  lemma SameFirstStep(a: Config, b: Config, s: string)
    requires |s| > 0 && Step(a, s[0]) == Step(b, s[0])
    ensures Run(a, s) == Run(b, s)
  {
  }

  /**
   * A header line after the first one: in the HeaderStart sub-state a byte that
   * is not a newline byte is handled exactly as in the Key sub-state, so the
   * line then runs as `HeaderLineRun` describes.
   */
  lemma HeaderStartRun(c: Config, s: string)
    requires c.parser.state == Headers && c.parser.headerState == HeaderStart
    requires |s| > 0 && !IsNewLine(s[0])
    ensures Run(c, s) == Run(c.(parser := c.parser.(headerState := Key)), s)
  {
    SameFirstStep(c, c.(parser := c.parser.(headerState := Key)), s);
  }

  /**
   * The blank line that ends the headers, from HeaderStart with an empty
   * buffer: the newline bytes are collected, and the first other byte is
   * accepted only when the run is exactly CR LF; it is then the first body
   * byte, handled in the Data state with an empty buffer.
   */
  lemma {:induction false} BlankLineRun(c: Config, w: string, x: char)
    requires c.parser.state == Headers && c.parser.headerState == HeaderStart && c.parser.buffer == []
    requires |w| > 0 && forall i | 0 <= i < |w| :: IsNewLine(w[i])
    requires !IsNewLine(x)
    ensures var body := c.(parser := c.parser.(state := Data));
      && Run(c, w + [x]).1 == Processings(|w|) + [if w == "\r\n" then DataStep(body, x).1 else Error]
      && (w == "\r\n" ==> Run(c, w + [x]).0 == DataStep(body, x).0)
  {
    var c1 := WithBuffer(Goto(c, NewLine2), [w[0]]);
    assert Step(c, w[0]) == (c1, Processing) by {
      assert c.parser.buffer + [w[0]] == [w[0]];
    }
    forall i | 0 <= i < |w[1..]|
      ensures Step(WithBuffer(c1, c1.parser.buffer + w[1..][..i]), w[1..][i])
           == (WithBuffer(c1, c1.parser.buffer + w[1..][..i] + [w[1..][i]]), Processing)
    {
      assert IsNewLine(w[1..][i]) by { assert w[1..][i] == w[i + 1]; }
    }
    CollectRun(c, Goto(c, NewLine2), w);
    var c2 := WithBuffer(c1, w);
    RunThen(c, w, x);
    if w == "\r\n" {
      assert c2.(parser := c2.parser.(buffer := [], state := Data)) == c.(parser := c.parser.(state := Data));
    }
  }

  /**
   * A body whose length is the declared Content-Length, from the Data state:
   * each body byte is counted and collected, and the byte after the last one
   * completes the request: the body is stored, the count and the buffer are
   * cleared, the parser is back in Start, and that byte itself is dropped.
   */
  lemma {:induction false} BodyRun(c: Config, s: string, x: char)
    requires c.parser.state == Data
    requires 0 <= c.parser.consumedContent && c.request.contentLength == c.parser.consumedContent + |s|
    ensures Run(c, s + [x])
         == (Config(c.parser.(state := Start, buffer := [], consumedContent := 0), c.request.(data := c.parser.buffer + s)),
             Processings(|s|) + [Ok])
    decreases |s|
  {
    if s == [] {
      assert s + [x] == [x];
      RunOne(c, x);
      assert c.parser.buffer + s == c.parser.buffer;
      assert Processings(0) + [Ok] == [Ok];
    } else {
      var c1 := c.(parser := c.parser.(buffer := c.parser.buffer + [s[0]], consumedContent := c.parser.consumedContent + 1));
      assert Step(c, s[0]) == (c1, Processing);
      BodyRun(c1, s[1..], x);
      assert (s + [x])[0] == s[0] && (s + [x])[1..] == s[1..] + [x];
      assert c1.parser.buffer + s[1..] == c.parser.buffer + s;
      assert [Processing] + (Processings(|s| - 1) + [Ok]) == Processings(|s|) + [Ok];
    }
  }

  /** Without a Content-Length the body never ends: every byte is collected and none completes the request. */
  lemma {:induction false} UnboundedBodyRun(c: Config, s: string)
    requires c.parser.state == Data && c.request.contentLength == -1
    ensures Run(c, s) == (WithBuffer(c, c.parser.buffer + s), Processings(|s|))
  {
    AppendRun(c, s);
  }
}
