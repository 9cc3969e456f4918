/**
 * The URL codec: percent-encoding of single strings (`quote`, `quotePlus`
 * and their inverses) and the query-string form of parameter lists
 * (`decode`, `decodeMap`, `encode`). A string is a sequence of bytes, each
 * held in a `char`; every function here is total except `encode`, which
 * rejects an item that is neither a bare key nor a key and a value.
 */
module Url {
  import opened Wrappers
  import opened Ascii

  /** Letters, digits and "-_.~": the unreserved characters of RFC 3986, section 2.3. */
  predicate IsUnreserved(c: char)
  {
    ('a' <= c <= 'z') || ('A' <= c <= 'Z') || IsDigit(c) || c == '-' || c == '_' || c == '.' || c == '~'
  }

  /** The characters `quote` passes through: the unreserved ones and the path separator. */
  predicate IsSafe(c: char)
  {
    IsUnreserved(c) || c == '/'
  }

  /** All characters are bytes. */
  predicate IsBytes(s: string)
  {
    forall i | 0 <= i < |s| :: s[i] as int < 256
  }

  /** The upper-case hexadecimal digit for `n`. */
  function HexDigit(n: nat): (c: char)
    requires n < 16
    ensures IsDigit(c) || 'A' <= c <= 'F'
  {
    if n < 10 then ('0' as int + n) as char else ('A' as int + n - 10) as char
  }

  /** The value of a hexadecimal digit in either case; None for any other character. */
  function HexValue(c: char): (r: Option<nat>)
    ensures r.Some? ==> r.value < 16
    ensures r.Some? <==> IsDigit(c) || 'a' <= c <= 'f' || 'A' <= c <= 'F'
  {
    if IsDigit(c) then Some(c as int - '0' as int)
    else if 'a' <= c <= 'f' then Some(c as int - 'a' as int + 10)
    else if 'A' <= c <= 'F' then Some(c as int - 'A' as int + 10)
    else None
  }

  lemma HexRoundTrip(n: nat)
    requires n < 16
    ensures HexValue(HexDigit(n)) == Some(n)
  {
  }

  /** '%' and the two upper-case hexadecimal digits of the byte `c` (its low eight bits). */
  function Escape(c: char): (r: string)
    ensures |r| == 3 && r[0] == '%'
  {
    var b := c as int % 256;
    ['%', HexDigit(b / 16), HexDigit(b % 16)]
  }

  /** One character as `quote` (plus == false) or `quotePlus` (plus == true) writes it. */
  function QuoteChar(c: char, plus: bool): (r: string)
    ensures |r| == 1 || |r| == 3
  {
    if IsSafe(c) then [c]
    else if plus && c == ' ' then "+"
    else Escape(c)
  }

  function QuoteWith(s: string, plus: bool): (r: string)
    ensures |r| >= |s|
    ensures forall i | 0 <= i < |r| :: IsSafe(r[i]) || r[i] == '%' || (plus && r[i] == '+')
    decreases |s|
  {
    if s == [] then [] else QuoteChar(s[0], plus) + QuoteWith(s[1..], plus)
  }

  /** `quote`: every character outside the safe set becomes '%' and two upper-case hex digits. */
  function Quote(s: string): (r: string)
    ensures |r| >= |s|
    ensures forall i | 0 <= i < |r| :: IsSafe(r[i]) || r[i] == '%'
  {
    QuoteWith(s, false)
  }

  /** `quotePlus`: as `quote`, except that a space becomes '+'. */
  function QuotePlus(s: string): (r: string)
    ensures ' ' !in r
    ensures forall i | 0 <= i < |r| :: IsSafe(r[i]) || r[i] == '%' || r[i] == '+'
  {
    QuoteWith(s, true)
  }

  /** `s` starts with '%' and two hexadecimal digits. */
  predicate EscapeAt(s: string)
  {
    |s| >= 3 && s[0] == '%' && HexValue(s[1]).Some? && HexValue(s[2]).Some?
  }

  /** The byte the escape at the start of `s` stands for. */
  function EscapedByte(s: string): char
    requires EscapeAt(s)
  {
    (HexValue(s[1]).value * 16 + HexValue(s[2]).value) as char
  }

  /**
   * `unquote`: "%XX" with two hex digits in either case becomes that byte; a
   * '%' without two hex digits after it is kept, and the scan goes on at the
   * very next character; every other character is kept.
   */
  function Unquote(s: string): (r: string)
    ensures |r| <= |s|
    decreases |s|
  {
    if s == [] then []
    else if EscapeAt(s) then [EscapedByte(s)] + Unquote(s[3..])
    else [s[0]] + Unquote(s[1..])
  }

  /** Every '+' replaced by a space. */
  function PlusToSpace(s: string): (r: string)
    ensures |r| == |s|
    ensures forall i | 0 <= i < |s| :: r[i] == (if s[i] == '+' then ' ' else s[i])
    decreases |s|
  {
    if s == [] then [] else [if s[0] == '+' then ' ' else s[0]] + PlusToSpace(s[1..])
  }

  /** `unquotePlus`: '+' means a space, and then as `unquote`. */
  function UnquotePlus(s: string): (r: string)
    ensures |r| <= |s|
  {
    Unquote(PlusToSpace(s))
  }

  /** The pieces of `s` between occurrences of `sep`, in order; one piece when `sep` does not occur. */
  function Split(s: string, sep: char): (r: seq<string>)
    ensures |r| > 0
    ensures forall i | 0 <= i < |r| :: sep !in r[i]
    decreases |s|
  {
    match IndexOf(s, sep)
    case None => [s]
    case Some(i) => [s[..i]] + Split(s[i + 1..], sep)
  }

  /** The pieces written one after another with `sep` between each two. */
  function Join(pieces: seq<string>, sep: char): string
    decreases |pieces|
  {
    if pieces == [] then []
    else if |pieces| == 1 then pieces[0]
    else pieces[0] + [sep] + Join(pieces[1..], sep)
  }

  /** An item: one string (a key without a value) or two (a key and its value). */
  type Item = seq<string>

  /** One decoded item: split at the first '=', each side through `unquotePlus`; a bare key when there is none. */
  function DecodeItem(piece: string): (r: Item)
    ensures |r| == 1 <==> '=' !in piece
    ensures |r| == 1 || |r| == 2
  {
    match IndexOf(piece, '=')
    case None => [UnquotePlus(piece)]
    case Some(i) => [UnquotePlus(piece[..i]), UnquotePlus(piece[i + 1..])]
  }

  function DecodeAll(pieces: seq<string>): (r: seq<Item>)
    ensures |r| == |pieces|
    ensures forall i | 0 <= i < |pieces| :: r[i] == DecodeItem(pieces[i])
    decreases |pieces|
  {
    if pieces == [] then [] else [DecodeItem(pieces[0])] + DecodeAll(pieces[1..])
  }

  /** `decode`: the items of a query string, in order; the empty string has none. */
  function Decode(s: string): (r: seq<Item>)
    ensures s == [] ==> r == []
    ensures s != [] ==> |r| == |Split(s, '&')|
  {
    if s == [] then [] else DecodeAll(Split(s, '&'))
  }

  function Key(item: Item): string
  {
    if |item| == 0 then [] else item[0]
  }

  /** The value of an item: the empty string for a bare key. */
  function Value(item: Item): string
  {
    if |item| < 2 then [] else item[1]
  }

  /** The items as a map; of items with the same key the last one wins. */
  function ToMap(items: seq<Item>): (m: map<string, string>)
    ensures forall k :: k in m <==> exists i | 0 <= i < |items| :: Key(items[i]) == k
    decreases |items|
  {
    if items == [] then map[]
    else
      var rest := ToMap(items[1..]);
      assert forall i | 1 <= i < |items| :: items[i] == items[1..][i - 1];
      if Key(items[0]) in rest then rest else rest[Key(items[0]) := Value(items[0])]
  }

  /** `decodeMap`: the items of a query string as a map, a bare key mapping to "". */
  function DecodeMap(s: string): (m: map<string, string>)
    ensures s == [] ==> m == map[]
    ensures forall k :: k in m <==> exists i | 0 <= i < |Decode(s)| :: Key(Decode(s)[i]) == k
  {
    ToMap(Decode(s))
  }

  /** The exception `encode` raises for an item with no string or more than two. */
  datatype URLEncodeError = URLEncodeError

  predicate ValidItem(item: Item)
  {
    |item| == 1 || |item| == 2
  }

  /** One item as `encode` writes it: the key, or the key, '=' and the value, each through `quotePlus`. */
  function EncodeItem(item: Item): string
    requires ValidItem(item)
  {
    if |item| == 1 then QuotePlus(item[0]) else QuotePlus(item[0]) + "=" + QuotePlus(item[1])
  }

  function EncodeAll(items: seq<Item>): (r: seq<string>)
    requires forall i | 0 <= i < |items| :: ValidItem(items[i])
    ensures |r| == |items|
    ensures forall i | 0 <= i < |items| :: r[i] == EncodeItem(items[i])
    decreases |items|
  {
    if items == [] then [] else [EncodeItem(items[0])] + EncodeAll(items[1..])
  }

  /**
   * `encode`: the items in order, joined by '&'; the encode error when any
   * item has no string or more than two.
   */
  function Encode(items: seq<Item>): (r: Result<string, URLEncodeError>)
    ensures r.Failure? <==> exists i | 0 <= i < |items| :: !ValidItem(items[i])
  {
    if forall i | 0 <= i < |items| :: ValidItem(items[i]) then Success(Join(EncodeAll(items), '&'))
    else Failure(URLEncodeError)
  }

  /** Some key of a non-empty map. */
  ghost function PickKey(m: map<string, string>): (k: string)
    requires m != map[]
    ensures k in m
  {
    var k :| k in m; k
  }

  /** The entries of a map as two-string items, each key once, in some order. */
  ghost function MapItems(m: map<string, string>): (items: seq<Item>)
    ensures |items| == |m|
    ensures forall i | 0 <= i < |items| :: |items[i]| == 2 && items[i][0] in m && items[i][1] == m[items[i][0]]
    decreases |m|
  {
    if m == map[] then []
    else
      var k := PickKey(m);
      var rest := MapItems(m - {k});
      assert forall i | 1 <= i < |rest| + 1 :: ([[k, m[k]]] + rest)[i] == rest[i - 1];
      [[k, m[k]]] + rest
  }

  /** `encode` of a map: its entries in some order (the order is not fixed). */
  ghost function EncodeMap(m: map<string, string>): (r: Result<string, URLEncodeError>)
    ensures r.Success?
  {
    Encode(MapItems(m))
  }

  /* Properties of the percent-encoding. */

  lemma {:induction false} QuoteConcat(a: string, b: string, plus: bool)
    ensures QuoteWith(a + b, plus) == QuoteWith(a, plus) + QuoteWith(b, plus)
    decreases |a|
  {
    if a == [] {
      assert a + b == b;
    } else {
      var c, rest := a[0], a[1..];
      assert (a + b)[0] == c && (a + b)[1..] == rest + b;
      QuoteConcat(rest, b, plus);
      assert QuoteWith(a + b, plus) == QuoteChar(c, plus) + (QuoteWith(rest, plus) + QuoteWith(b, plus));
      assert QuoteWith(a, plus) == QuoteChar(c, plus) + QuoteWith(rest, plus);
      ConcatAssoc(QuoteChar(c, plus), QuoteWith(rest, plus), QuoteWith(b, plus));
    }
  }

  /** Concatenation regroups; stated apart so that proofs about quoting need no extensionality. */
  lemma ConcatAssoc(x: string, y: string, z: string)
    ensures x + (y + z) == (x + y) + z
  {
  }

  /** `quote` leaves a string unchanged exactly when every character is safe. */
  lemma {:induction false} QuoteUnchanged(s: string)
    ensures Quote(s) == s <==> forall i | 0 <= i < |s| :: IsSafe(s[i])
    decreases |s|
  {
    if s != [] {
      QuoteUnchanged(s[1..]);
      if IsSafe(s[0]) {
        assert Quote(s) == [s[0]] + Quote(s[1..]);
        assert (forall i | 0 <= i < |s| :: IsSafe(s[i])) <==> (forall i | 0 <= i < |s[1..]| :: IsSafe(s[1..][i])) by {
          if forall i | 0 <= i < |s[1..]| :: IsSafe(s[1..][i]) {
            forall i | 0 <= i < |s| ensures IsSafe(s[i]) {
              if i > 0 { assert s[i] == s[1..][i - 1]; }
            }
          }
        }
        assert Quote(s) == s <==> Quote(s[1..]) == s[1..] by {
          assert s == [s[0]] + s[1..];
        }
      } else {
        assert |Quote(s)| > |s| by {
          assert |Quote(s)| == 3 + |Quote(s[1..])|;
        }
      }
    }
  }

  /** `quotePlus` differs from `quote` only at spaces, which it writes as '+'. */
  lemma {:induction false} QuotePlusWithoutSpaces(s: string)
    requires ' ' !in s
    ensures QuotePlus(s) == Quote(s)
    decreases |s|
  {
    if s != [] {
      assert s[0] != ' ';
      QuotePlusWithoutSpaces(s[1..]);
    }
  }

  lemma QuotePlusChar(c: char)
    ensures QuoteChar(c, true) == (if c == ' ' then "+" else QuoteChar(c, false))
  {
  }

  /** A character other than '%' is kept by `unquote`. */
  lemma UnquoteKeeps(c: char, u: string)
    requires c != '%'
    ensures Unquote([c] + u) == [c] + Unquote(u)
  {
    assert ([c] + u)[1..] == u;
  }

  /** An escape written by `quote` is decoded back to its byte. */
  lemma UnquoteEscape(c: char, u: string)
    requires c as int < 256
    ensures Unquote(Escape(c) + u) == [c] + Unquote(u)
  {
    var e := Escape(c) + u;
    EscapeRoundTrip(c);
    assert e[0] == '%' && e[1] == Escape(c)[1] && e[2] == Escape(c)[2];
    assert e[3..] == u;
  }

  /** The escape of a byte is an escape, and it stands for that byte. */
  lemma EscapeRoundTrip(c: char)
    requires c as int < 256
    ensures EscapeAt(Escape(c)) && EscapedByte(Escape(c)) == c
  {
    var b := c as int;
    var hi, lo := b / 16, b % 16;
    assert b % 256 == b;
    assert b == hi * 16 + lo;
    HexRoundTrip(hi);
    HexRoundTrip(lo);
  }

  /** No '%' among the last two characters, so no escape reaches past the end. */
  predicate CleanEnd(a: string)
  {
    forall i | 0 <= i < |a| && i + 2 >= |a| :: a[i] != '%'
  }

  /** `unquote` works piecewise on a string cut where no escape is cut. */
  lemma {:induction false} UnquoteConcat(a: string, b: string)
    requires CleanEnd(a)
    ensures Unquote(a + b) == Unquote(a) + Unquote(b)
    decreases |a|
  {
    if a == [] {
      assert a + b == b;
    } else {
      EscapeAtConcat(a, b);
      var k := if EscapeAt(a) then 3 else 1;
      var head := if EscapeAt(a) then [EscapedByte(a)] else [a[0]];
      var rest := a[k..];
      assert (a + b)[k..] == rest + b;
      CleanEndSuffix(a, k);
      UnquoteConcat(rest, b);
      assert Unquote(a + b) == head + (Unquote(rest) + Unquote(b));
      assert Unquote(a) == head + Unquote(rest);
      ConcatAssoc(head, Unquote(rest), Unquote(b));
    }
  }

  /** Where `a` ends cleanly, an escape at the start of `a + b` lies within `a`. */
  lemma EscapeAtConcat(a: string, b: string)
    requires CleanEnd(a) && a != []
    ensures (a + b)[0] == a[0]
    ensures EscapeAt(a + b) == EscapeAt(a)
    ensures EscapeAt(a) ==> EscapedByte(a + b) == EscapedByte(a)
  {
    if a[0] == '%' {
      assert |a| >= 3;
      assert (a + b)[1] == a[1] && (a + b)[2] == a[2];
    }
  }

  /** What is left of a string that ends cleanly ends cleanly. */
  lemma CleanEndSuffix(a: string, k: nat)
    requires CleanEnd(a) && k <= |a|
    ensures CleanEnd(a[k..])
  {
    forall i | 0 <= i < |a[k..]| && i + 2 >= |a[k..]| ensures a[k..][i] != '%' {
      assert a[k..][i] == a[i + k];
    }
  }

  /** Two strings that end cleanly end cleanly together. */
  lemma CleanEndConcat(a: string, b: string)
    requires CleanEnd(a) && CleanEnd(b)
    ensures CleanEnd(a + b)
  {
    forall i | 0 <= i < |a + b| && i + 2 >= |a + b| ensures (a + b)[i] != '%' {
      if i < |a| {
        assert i + 2 >= |a|;
      }
    }
  }

  /** `unquote` inverts `quote` on byte strings. */
  lemma {:induction false} UnquoteQuote(s: string)
    requires IsBytes(s)
    ensures Unquote(Quote(s)) == s
    decreases |s|
  {
    if s != [] {
      assert IsBytes(s[1..]) by {
        forall i | 0 <= i < |s[1..]| ensures s[1..][i] as int < 256 {
          assert s[1..][i] == s[i + 1];
        }
      }
      UnquoteQuote(s[1..]);
      assert Quote(s) == QuoteChar(s[0], false) + Quote(s[1..]);
      if IsSafe(s[0]) {
        UnquoteKeeps(s[0], Quote(s[1..]));
      } else {
        UnquoteEscape(s[0], Quote(s[1..]));
      }
      assert s == [s[0]] + s[1..];
    }
  }

  lemma {:induction false} PlusToSpaceConcat(a: string, b: string)
    ensures PlusToSpace(a + b) == PlusToSpace(a) + PlusToSpace(b)
  {
    var l, r := PlusToSpace(a + b), PlusToSpace(a) + PlusToSpace(b);
    forall i | 0 <= i < |a + b|
      ensures l[i] == r[i]
    {
      if i < |a| {
        assert (a + b)[i] == a[i];
      } else {
        assert (a + b)[i] == b[i - |a|];
      }
    }
  }

  /** A string without '+' is left alone by the '+'-to-space step. */
  lemma PlusToSpaceWithoutPlus(s: string)
    requires '+' !in s
    ensures PlusToSpace(s) == s
  {
    assert forall i | 0 <= i < |s| :: PlusToSpace(s)[i] == s[i];
  }

  /** `unquotePlus` inverts `quotePlus` on byte strings. */
  lemma {:induction false} UnquotePlusQuotePlus(s: string)
    requires IsBytes(s)
    ensures UnquotePlus(QuotePlus(s)) == s
    decreases |s|
  {
    if s != [] {
      assert IsBytes(s[1..]) by {
        forall i | 0 <= i < |s[1..]| ensures s[1..][i] as int < 256 {
          assert s[1..][i] == s[i + 1];
        }
      }
      UnquotePlusQuotePlus(s[1..]);
      var rest := PlusToSpace(QuotePlus(s[1..]));
      assert QuotePlus(s) == QuoteChar(s[0], true) + QuotePlus(s[1..]);
      PlusToSpaceConcat(QuoteChar(s[0], true), QuotePlus(s[1..]));
      if IsSafe(s[0]) {
        PlusToSpaceWithoutPlus([s[0]]);
        UnquoteKeeps(s[0], rest);
      } else if s[0] == ' ' {
        assert PlusToSpace("+") == " ";
        UnquoteKeeps(' ', rest);
      } else {
        var e := Escape(s[0]);
        assert '+' !in e by {
          assert forall i | 0 <= i < 3 :: e[i] == '%' || IsSafe(e[i]);
        }
        PlusToSpaceWithoutPlus(e);
        UnquoteEscape(s[0], rest);
      }
      assert s == [s[0]] + s[1..];
    }
  }

  /** Without '+', `unquotePlus` is `unquote`, malformed escapes included. */
  lemma UnquotePlusWithoutPlus(s: string)
    requires '+' !in s
    ensures UnquotePlus(s) == Unquote(s)
  {
    PlusToSpaceWithoutPlus(s);
  }

  /** Without '%', `unquote` changes nothing. */
  lemma {:induction false} UnquoteWithoutPercent(s: string)
    requires '%' !in s
    ensures Unquote(s) == s
    decreases |s|
  {
    if s != [] {
      UnquoteWithoutPercent(s[1..]);
      assert s == [s[0]] + s[1..];
    }
  }

  /* Properties of the query-string form. */

  /** Splitting what `Join` wrote gives the pieces back, when none holds the separator. */
  lemma {:induction false} SplitJoin(pieces: seq<string>, sep: char)
    requires |pieces| > 0 && forall i | 0 <= i < |pieces| :: sep !in pieces[i]
    ensures Split(Join(pieces, sep), sep) == pieces
    decreases |pieces|
  {
    if |pieces| > 1 {
      var first, others := pieces[0], pieces[1..];
      var rest := Join(others, sep);
      assert Join(pieces, sep) == first + [sep] + rest;
      SplitAfter(first, sep, rest);
      assert forall i | 0 <= i < |others| :: others[i] == pieces[i + 1];
      SplitJoin(others, sep);
      assert pieces == [first] + others;
    }
  }

  /** The first piece ends at the first separator. */
  lemma SplitAfter(a: string, sep: char, rest: string)
    requires sep !in a
    ensures Split(a + [sep] + rest, sep) == [a] + Split(rest, sep)
  {
    var s := a + [sep] + rest;
    IndexOfAfter(a, sep, rest);
    assert s[..|a|] == a && s[|a| + 1..] == rest;
  }

  /** And joining the pieces of a split gives the string back. */
  lemma {:induction false} JoinSplit(s: string, sep: char)
    ensures Join(Split(s, sep), sep) == s
    decreases |s|
  {
    match IndexOf(s, sep)
    case None =>
    case Some(i) =>
      JoinSplit(s[i + 1..], sep);
      var pieces := Split(s, sep);
      assert pieces == [s[..i]] + Split(s[i + 1..], sep);
      assert pieces[1..] == Split(s[i + 1..], sep);
      assert s == s[..i] + [sep] + s[i + 1..];
  }

  /** All strings of all items are byte strings. */
  predicate ByteItems(items: seq<Item>)
  {
    forall i, j | 0 <= i < |items| && 0 <= j < |items[i]| :: IsBytes(items[i][j])
  }

  /** `decode` reads back each item `encode` writes. */
  lemma DecodeItemEncodeItem(item: Item)
    requires ValidItem(item) && forall j | 0 <= j < |item| :: IsBytes(item[j])
    ensures DecodeItem(EncodeItem(item)) == item
  {
    var k := QuotePlus(item[0]);
    UnquotePlusQuotePlus(item[0]);
    assert '=' !in k by {
      assert forall i | 0 <= i < |k| :: k[i] != '=';
    }
    if |item| == 2 {
      var v := QuotePlus(item[1]);
      UnquotePlusQuotePlus(item[1]);
      IndexOfAfter(k, '=', v);
      var e := k + "=" + v;
      assert e == k + ['='] + v;
      assert e[..|k|] == k && e[|k| + 1..] == v;
    }
  }

  /** No written item holds '&', and only a bare empty key is written as nothing. */
  lemma EncodedItemShape(item: Item)
    requires ValidItem(item)
    ensures '&' !in EncodeItem(item)
    ensures EncodeItem(item) == [] <==> item == [""]
  {
    var k := QuotePlus(item[0]);
    assert forall j | 0 <= j < |k| :: k[j] != '&';
    assert |k| >= |item[0]|;
    if |item| == 2 {
      var v := QuotePlus(item[1]);
      assert forall j | 0 <= j < |v| :: v[j] != '&';
      assert EncodeItem(item) == k + "=" + v;
    } else {
      assert item == [item[0]];
    }
  }

  /** What `encode` writes is empty only for no items or a single bare empty key. */
  lemma EncodedEmpty(items: seq<Item>)
    requires |items| > 0 && forall i | 0 <= i < |items| :: ValidItem(items[i])
    ensures Join(EncodeAll(items), '&') == [] <==> items == [[""]]
  {
    var pieces := EncodeAll(items);
    EncodedItemShape(items[0]);
    if |pieces| > 1 {
      assert |Join(pieces, '&')| > |pieces[0]|;
      assert items != [[""]];
    }
  }

  /**
   * The round trip: `decode` of what `encode` writes gives the items back, with
   * the one exception of a single bare empty key, which is written as the
   * empty string and so reads back as no items.
   */
  lemma {:induction false} DecodeEncode(items: seq<Item>)
    requires forall i | 0 <= i < |items| :: ValidItem(items[i])
    requires ByteItems(items)
    ensures Encode(items).Success?
    ensures Decode(Encode(items).value) == (if items == [[""]] then [] else items)
  {
    var pieces := EncodeAll(items);
    var s := Join(pieces, '&');
    assert Encode(items) == Success(s);
    if items != [] {
      EncodedEmpty(items);
      if items != [[""]] {
        forall i | 0 <= i < |pieces| ensures '&' !in pieces[i] {
          EncodedItemShape(items[i]);
        }
        SplitJoin(pieces, '&');
        forall i | 0 <= i < |items| ensures DecodeAll(pieces)[i] == items[i] {
          assert forall j | 0 <= j < |items[i]| :: IsBytes(items[i][j]);
          DecodeItemEncodeItem(items[i]);
        }
        assert Decode(s) == DecodeAll(pieces);
      }
    }
  }

  /** Of items with the same key the last one wins. */
  lemma {:induction false} ToMapLastWins(items: seq<Item>, x: Item)
    ensures ToMap(items + [x]) == ToMap(items)[Key(x) := Value(x)]
    decreases |items|
  {
    if items == [] {
      assert items + [x] == [x];
      assert ToMap([x]) == ToMap([x][1..])[Key(x) := Value(x)];
    } else {
      assert (items + [x])[0] == items[0] && (items + [x])[1..] == items[1..] + [x];
      ToMapLastWins(items[1..], x);
    }
  }

  /** The items of a map, as a map again. */
  lemma {:induction false} ToMapMapItems(m: map<string, string>)
    ensures ToMap(MapItems(m)) == m
    decreases |m|
  {
    if m != map[] {
      var k := PickKey(m);
      var rest := MapItems(m - {k});
      MapItemsFirst(m);
      ToMapMapItems(m - {k});
      ToMapCons([k, m[k]], rest);
      RestoreKey(m, k);
    }
  }

  lemma MapItemsFirst(m: map<string, string>)
    requires m != map[]
    ensures MapItems(m) == [[PickKey(m), m[PickKey(m)]]] + MapItems(m - {PickKey(m)})
  {
  }

  lemma RestoreKey(m: map<string, string>, k: string)
    requires k in m
    ensures (m - {k})[k := m[k]] == m
  {
  }

  /** `ToMap` of one more item in front: it counts only when no later item has its key. */
  lemma ToMapCons(x: Item, rest: seq<Item>)
    ensures ToMap([x] + rest) == if Key(x) in ToMap(rest) then ToMap(rest) else ToMap(rest)[Key(x) := Value(x)]
  {
    assert ([x] + rest)[0] == x && ([x] + rest)[1..] == rest;
  }

  /** `items` lists entries of `m`, each as a two-string item (in any order, repeats allowed). */
  predicate EntriesOf(items: seq<Item>, m: map<string, string>)
  {
    forall i | 0 <= i < |items| :: |items[i]| == 2 && items[i][0] in m && items[i][1] == m[items[i][0]]
  }

  /** The keys of the items. */
  function KeySet(items: seq<Item>): set<string>
    decreases |items|
  {
    if items == [] then {} else {Key(items[0])} + KeySet(items[1..])
  }

  /** The keys of the map the items make are the keys of the items. */
  lemma {:induction false} ToMapKeys(items: seq<Item>)
    ensures ToMap(items).Keys == KeySet(items)
    decreases |items|
  {
    if items != [] {
      ToMapKeys(items[1..]);
      ToMapCons(items[0], items[1..]);
      assert [items[0]] + items[1..] == items;
    }
  }

  /** The map made of entries of `m` agrees with `m` on its keys. */
  lemma {:induction false} ToMapEntries(items: seq<Item>, m: map<string, string>)
    requires EntriesOf(items, m)
    ensures forall k | k in ToMap(items) :: k in m && ToMap(items)[k] == m[k]
    decreases |items|
  {
    if items != [] {
      assert EntriesOf(items[1..], m) by {
        assert forall i | 0 <= i < |items[1..]| :: items[1..][i] == items[i + 1];
      }
      ToMapEntries(items[1..], m);
      ToMapCons(items[0], items[1..]);
      assert [items[0]] + items[1..] == items;
    }
  }

  /**
   * The map round trip for any listing of the entries: whatever order `encode`
   * is given the entries of a map in, `decodeMap` gives the map back.
   */
  lemma DecodeMapEncodeEntries(m: map<string, string>, items: seq<Item>)
    requires forall k | k in m :: IsBytes(k) && IsBytes(m[k])
    requires EntriesOf(items, m) && m.Keys <= KeySet(items)
    ensures Encode(items).Success?
    ensures DecodeMap(Encode(items).value) == m
  {
    EntriesBytes(items, m);
    assert forall i | 0 <= i < |items| :: ValidItem(items[i]);
    DecodeEncode(items);
    assert items != [[""]] by {
      assert forall i | 0 <= i < |items| :: |items[i]| == 2;
    }
    ToMapOfEntries(items, m);
  }

  /** Entries of a map of byte strings are items of byte strings. */
  lemma EntriesBytes(items: seq<Item>, m: map<string, string>)
    requires forall k | k in m :: IsBytes(k) && IsBytes(m[k])
    requires EntriesOf(items, m)
    ensures ByteItems(items)
  {
    forall i, j | 0 <= i < |items| && 0 <= j < |items[i]|
      ensures IsBytes(items[i][j])
    {
      var k := items[i][0];
      assert k in m && items[i][1] == m[k];
      assert IsBytes(k) && IsBytes(m[k]);
      assert j == 0 || j == 1;
    }
  }

  /** A listing of all the entries of `m`, as a map, is `m`. */
  lemma ToMapOfEntries(items: seq<Item>, m: map<string, string>)
    requires EntriesOf(items, m) && m.Keys <= KeySet(items)
    ensures ToMap(items) == m
  {
    ToMapEntries(items, m);
    ToMapKeys(items);
  }

  /** The map round trip that `encode` of a map is checked by: `decodeMap` gives the map back. */
  lemma DecodeMapEncodeMap(m: map<string, string>)
    requires forall k | k in m :: IsBytes(k) && IsBytes(m[k])
    ensures DecodeMap(EncodeMap(m).value) == m
  {
    var items := MapItems(m);
    ToMapMapItems(m);
    ToMapKeys(items);
    DecodeMapEncodeEntries(m, items);
  }
}
