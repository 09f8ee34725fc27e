/** rrl.go's zparts: it reads the `(score, member)` pairs back out of the
    text go-redis prints for a ZRANGE ... WITHSCORES reply, which looks like
    `zrange <key> 0 -1 withscores: [{<score> <member>} {<score> <member>}]`.
    Scores stay text here: `strconv.ParseFloat` is not part of this model. */
module Zparts {
  import opened Wrappers
  import opened GoStrings

  /** One `redis.Z` as zparts builds it. */
  datatype Pair = Pair(score: string, member: string)

  /** The runtime panic of an out-of-range slice index. */
  datatype Panic = IndexOutOfRange

  /** One loop step: the score token loses its `{`, the member token its `}`. */
  function MakePair(rawScore: string, rawElement: string): Pair
  {
    Pair(Trim(rawScore, {'{'}), Trim(rawElement, {'}'}))
  }

  /** The pairing loop as a function of its token list: pair k comes from
      tokens 2k and 2k + 1, in order, and an odd count panics. */
  function PairUp(tokens: seq<string>): (r: Result<seq<Pair>, Panic>)
    ensures r.Ok? <==> |tokens| % 2 == 0
    ensures r.Ok? ==> |r.value| == |tokens| / 2
    ensures r.Ok? ==> forall k :: 0 <= k < |r.value| ==>
      r.value[k] == MakePair(tokens[k + k], tokens[k + k + 1])
    decreases |tokens|
  {
    if |tokens| == 0 then Ok([])
    else if |tokens| == 1 then Err(IndexOutOfRange)
    else
      match PairUp(tokens[2..])
      case Ok(rest) => Ok([MakePair(tokens[0], tokens[1])] + rest)
      case Err(e) => Err(e)
  }

  /** The tokens zparts pairs up, or None where it returns an empty list
      before reaching its loop. */
  function WindowTokens(zstring: string): Option<seq<string>>
  {
    var parts := Split(zstring, ':');
    if |parts| < 2 then None
    else
      var zslice := TrimSpace(parts[1]);
      if zslice == "[]" then None
      else Some(Split(Trim(zslice, {'[', ']'}), ' '))
  }

  /** What zparts returns for `zstring`. */
  function Parse(zstring: string): Result<seq<Pair>, Panic>
  {
    match WindowTokens(zstring)
    case None => Ok([])
    case Some(tokens) => PairUp(tokens)
  }

  /** rrl.go's zparts, loop and all. */
  method ParseReply(zstring: string) returns (elements: Result<seq<Pair>, Panic>)
    ensures elements == Parse(zstring)
  {
    var parts := Split(zstring, ':');
    if |parts| < 2 {
      return Ok([]);
    }
    var zslice := TrimSpace(parts[1]);
    if zslice == "[]" {
      return Ok([]);
    }
    zslice := Trim(zslice, {'[', ']'});
    var zpairs := Split(zslice, ' ');
    assert WindowTokens(zstring) == Some(zpairs);
    var acc: seq<Pair> := [];
    var i := 0;
    while i < |zpairs|
      invariant 0 <= i <= |zpairs| && i % 2 == 0
      invariant |acc| == i / 2
      invariant forall k :: 0 <= k < |acc| ==> acc[k] == MakePair(zpairs[k + k], zpairs[k + k + 1])
    {
      if i + 1 >= |zpairs| {
        assert |zpairs| % 2 == 1 && PairUp(zpairs).Err? && PairUp(zpairs).error.IndexOutOfRange?;
        return Err(IndexOutOfRange);
      }
      var rawScore := zpairs[i];
      var rawElement := zpairs[i + 1];
      acc := acc + [Pair(Trim(rawScore, {'{'}), Trim(rawElement, {'}'}))];
      i := i + 2;
    }
    assert PairUp(zpairs).Ok? && PairUp(zpairs).value == acc;
    return Ok(acc);
  }

  // ---------------------------------------------------------------------------
  // The text go-redis prints, and zparts as its inverse

  /** The space-separated tokens of a printed pair list. */
  function Tokens(ps: seq<Pair>): (t: seq<string>)
    ensures |t| == 2 * |ps|
  {
    if ps == [] then [] else ["{" + ps[0].score, ps[0].member + "}"] + Tokens(ps[1..])
  }

  /** `header: [{score member} ...]`, as go-redis's Cmder.String prints a
      reply: the command line, a colon and a space, then the value. */
  function Render(header: string, ps: seq<Pair>): (r: string)
    ensures IndexOf(r, ':') == IndexOf(header, ':')
  {
    IndexOfAppend(header, ": [" + Join(Tokens(ps), ' ') + "]", ':');
    assert header + ": [" + Join(Tokens(ps), ' ') + "]" == header + (": [" + Join(Tokens(ps), ' ') + "]");
    header + ": [" + Join(Tokens(ps), ' ') + "]"
  }

  /** The printed ZRANGE key 0 -1 WITHSCORES reply that rrl.go parses. */
  function RangeReply(key: string, ps: seq<Pair>): (r: string)
    ensures ':' in key ==> IndexOf(r, ':') == 7 + IndexOf(key, ':')
    ensures ':' !in key ==> IndexOf(r, ':') == |key| + 23
  {
    assert ':' !in "zrange " && ':' !in " 0 -1 withscores";
    IndexOfAppend("zrange ", key, ':');
    IndexOfAppend("zrange " + key, " 0 -1 withscores", ':');
    Render("zrange " + key + " 0 -1 withscores", ps)
  }

  /** A token that survives the printing: no space, colon or brace in it
      (true of rrl's own tokens and of printed numbers). */
  predicate Plain(s: string) {
    ' ' !in s && ':' !in s && '{' !in s && '}' !in s
  }

  predicate Printable(p: Pair) {
    Plain(p.score) && Plain(p.member)
  }

  lemma {:induction false} TokensPlain(ps: seq<Pair>)
    requires forall i :: 0 <= i < |ps| ==> Printable(ps[i])
    ensures forall i :: 0 <= i < |Tokens(ps)| ==> ' ' !in Tokens(ps)[i] && ':' !in Tokens(ps)[i]
  {
    if ps != [] {
      TokensPlain(ps[1..]);
      var t := Tokens(ps);
      assert t[0] == "{" + ps[0].score && t[1] == ps[0].member + "}";
      assert forall i :: 2 <= i < |t| ==> t[i] == Tokens(ps[1..])[i - 2];
    }
  }

  lemma {:induction false} PairUpTokens(ps: seq<Pair>)
    requires forall i :: 0 <= i < |ps| ==> Printable(ps[i])
    ensures PairUp(Tokens(ps)) == Ok(ps)
  {
    if ps != [] {
      var t := Tokens(ps);
      assert t[2..] == Tokens(ps[1..]);
      PairUpTokens(ps[1..]);
      var p := ps[0];
      TrimAround("{", p.score, "", {'{'});
      assert "{" + p.score + "" == t[0];
      TrimAround("", p.member, "}", {'}'});
      assert "" + p.member + "}" == t[1];
      assert [p] + ps[1..] == ps;
    }
  }

  /** The last character of a join is that of its last piece. */
  lemma {:induction false} JoinLast(parts: seq<string>, sep: char)
    requires |parts| >= 1 && parts[|parts| - 1] != []
    ensures var j := Join(parts, sep);
      j != [] && j[|j| - 1] == parts[|parts| - 1][|parts[|parts| - 1]| - 1]
  {
    if |parts| > 1 {
      JoinLast(parts[1..], sep);
    }
  }

  /** With no colon on either side, the piece after the colon is `b`. */
  lemma SecondPiece(a: string, b: string)
    requires ':' !in a && ':' !in b
    ensures |Split(a + ":" + b, ':')| == 2 && Split(a + ":" + b, ':')[1] == b
  {
    SplitAt(a, ':', b);
    SplitCount(b, ':');
  }

  /** The printed pair list: colon-free, and between braces when not empty. */
  lemma BodyShape(ps: seq<Pair>)
    requires forall i :: 0 <= i < |ps| ==> Printable(ps[i])
    ensures var body := Join(Tokens(ps), ' ');
      && ':' !in body
      && (ps == [] ==> body == "")
      && (ps != [] ==> body != [] && body[0] == '{' && body[|body| - 1] == '}')
  {
    var tokens := Tokens(ps);
    TokensPlain(ps);
    JoinAvoids(tokens, ' ', ':');
    if ps != [] {
      TokensLast(ps);
      JoinLast(tokens, ' ');
      assert tokens[0] == "{" + ps[0].score;
    }
  }

  /** zparts reads back exactly the pairs go-redis printed, in order,
      provided the header holds no colon and every token is plain. */
  lemma ParseRender(header: string, ps: seq<Pair>)
    requires ':' !in header
    requires forall i :: 0 <= i < |ps| ==> Printable(ps[i])
    ensures Parse(Render(header, ps)) == Ok(ps)
  {
    var tokens := Tokens(ps);
    var body := Join(tokens, ' ');
    BodyShape(ps);
    var inner := "[" + body + "]";
    var s := Render(header, ps);
    RenderedWindow(header, body);
    if ps == [] {
      assert inner == "[]";
      assert WindowTokens(s) == None;
    } else {
      assert inner != "[]";
      TrimAround("[", body, "]", {'[', ']'});
      TokensPlain(ps);
      SplitJoin(tokens, ' ');
      assert WindowTokens(s) == Some(tokens);
      PairUpTokens(ps);
    }
  }

  /** The piece after the header's colon trims to the bracketed list. */
  lemma RenderedWindow(header: string, body: string)
    requires ':' !in header && ':' !in body
    ensures var parts := Split(header + ": [" + body + "]", ':');
      |parts| >= 2 && TrimSpace(parts[1]) == "[" + body + "]"
  {
    var s, inner := header + ": [" + body + "]", "[" + body + "]";
    var rest := " " + inner + "";
    assert |Split(s, ':')| == 2 && Split(s, ':')[1] == rest by {
      assert s == header + ":" + rest;
      SecondPiece(header, rest);
    }
    assert TrimSpace(rest) == inner by {
      assert inner[0] == '[' && inner[|inner| - 1] == ']';
      TrimAround(" ", inner, "", Space);
    }
  }

  lemma {:induction false} TokensLast(ps: seq<Pair>)
    requires ps != []
    ensures Tokens(ps)[|Tokens(ps)| - 1] == ps[|ps| - 1].member + "}"
  {
    if |ps| > 1 {
      TokensLast(ps[1..]);
    }
  }

  /** The same for the reply to rrl's own command, when the key holds no colon. */
  lemma ParseRangeReply(key: string, ps: seq<Pair>)
    requires ':' !in key
    requires forall i :: 0 <= i < |ps| ==> Printable(ps[i])
    ensures Parse(RangeReply(key, ps)) == Ok(ps)
  {
    ParseRender("zrange " + key + " 0 -1 withscores", ps);
  }

  // ---------------------------------------------------------------------------
  // Edge cases of zparts as written

  /** Only the text between the first and the second colon is read. */
  lemma OnlySecondPart(a: string, b: string, c: string)
    requires ':' !in a && ':' !in b
    ensures Parse(a + ":" + b + ":" + c) == Parse(a + ":" + b)
  {
    SecondOfThree(a, b, c);
    SecondPiece(a, b);
    assert WindowTokens(a + ":" + b + ":" + c) == WindowTokens(a + ":" + b);
  }

  /** With no colon in `a` or `b`, the piece after the first colon is `b`
      whatever follows a second one. */
  lemma SecondOfThree(a: string, b: string, c: string)
    requires ':' !in a && ':' !in b
    ensures var parts := Split(a + ":" + b + ":" + c, ':');
      |parts| >= 2 && parts[1] == b
  {
    assert a + ":" + b + ":" + c == a + [':'] + (b + [':'] + c);
    SplitAt(a, ':', b + [':'] + c);
    SplitAt(b, ':', c);
  }

  /** An empty list comes back when there is no colon, or when the piece
      after the first colon trims to `[]`, whatever follows a second colon. */
  lemma EmptyCases(a: string, b: string, c: string)
    ensures ':' !in a ==> Parse(a) == Ok([])
    ensures ':' !in a && ':' !in b && TrimSpace(b) == "[]" ==>
      Parse(a + ":" + b) == Ok([]) && Parse(a + ":" + b + ":" + c) == Ok([])
  {
    if ':' !in a && ':' !in b && TrimSpace(b) == "[]" {
      SplitAt(a, ':', b);
      OnlySecondPart(a, b, c);
    }
  }

  /** A colon followed by nothing but white space leaves one empty token,
      and pairing it indexes past the end. */
  lemma BlankAfterColonPanics(a: string, b: string)
    requires ':' !in a && ':' !in b
    requires forall i :: 0 <= i < |b| ==> b[i] in Space
    ensures Parse(a + ":" + b) == Err(IndexOutOfRange)
  {
    SplitAt(a, ':', b);
    TrimAround(b, "", "", Space);
    assert b + "" + "" == b;
    TrimAround("", "", "", {'[', ']'});
  }

  /** Two texts that agree up to their second colon parse alike. */
  lemma SameUpToSecondColon(a: string, p: string, x: string, y: string)
    requires ':' !in a && ':' in p
    ensures Parse(a + ":" + p + x) == Parse(a + ":" + p + y)
  {
    CutAt(p, ':');
    var i := IndexOf(p, ':');
    var b, c := p[..i], p[i + 1..];
    assert a + ":" + p + x == a + ":" + b + ":" + (c + x);
    assert a + ":" + p + y == a + ":" + b + ":" + (c + y);
    OnlySecondPart(a, b, c + x);
    OnlySecondPart(a, b, c + y);
  }

  /** A key holding a colon breaks the parse: zparts then reads the
      command's own words after the key's first colon, and what the window
      holds makes no difference to the result. */
  lemma ColonInKeyIgnoresWindow(key: string, ps: seq<Pair>)
    requires ':' in key
    ensures Parse(RangeReply(key, ps)) == Parse(RangeReply(key, []))
  {
    CutAt(key, ':');
    var i := IndexOf(key, ':');
    var k1, k2 := key[..i], key[i + 1..];
    var head, p := "zrange " + k1, k2 + " 0 -1 withscores:";
    assert p[|p| - 1] == ':';
    var full, none := Join(Tokens(ps), ' '), Join(Tokens([]), ' ');
    ReplyAroundColon(k1, k2, full);
    ReplyAroundColon(k1, k2, none);
    SameUpToSecondColon(head, p, " [" + full + "]", " [" + none + "]");
  }

  /** The printed reply regrouped around the first colon of its key. */
  lemma ReplyAroundColon(k1: string, k2: string, body: string)
    ensures "zrange " + (k1 + [':'] + k2) + " 0 -1 withscores" + ": [" + body + "]"
      == ("zrange " + k1) + ":" + (k2 + " 0 -1 withscores:") + (" [" + body + "]")
  {
  }

  // ---------------------------------------------------------------------------
  // Scores as text

  /** A decimal digit's character. */
  function DigitChar(d: nat): (c: char)
    requires d < 10
    ensures '0' <= c <= '9'
  {
    "0123456789"[d]
  }

  /** The decimal digits of n, without leading zeros. */
  function Digits(n: nat): (s: string)
    ensures s != [] && forall i :: 0 <= i < |s| ==> '0' <= s[i] <= '9'
  {
    if n < 10 then [DigitChar(n)] else Digits(n / 10) + [DigitChar(n % 10)]
  }

  /** The value of a run of decimal digits. */
  function DigitsValue(s: string): nat
    requires forall i :: 0 <= i < |s| ==> '0' <= s[i] <= '9'
  {
    if s == [] then 0 else 10 * DigitsValue(s[..|s| - 1]) + (s[|s| - 1] as int - '0' as int)
  }

  /** A score as the printed reply spells it. */
  function Decimal(n: int): string
  {
    if n < 0 then "-" + Digits(-n) else Digits(n)
  }

  predicate IsDigits(s: string) {
    s != [] && forall i :: 0 <= i < |s| ==> '0' <= s[i] <= '9'
  }

  /** `strconv.ParseFloat` of a score token, read back as an integer, with
      its error dropped as zparts drops it: text that is not a decimal
      integer reads as 0. */
  function ParseScore(s: string): (r: int)
    ensures r > 0 ==> IsDigits(s)
    ensures r < 0 ==> |s| > 1 && s[0] == '-' && IsDigits(s[1..])
  {
    if |s| > 1 && s[0] == '-' && IsDigits(s[1..]) then 0 - DigitsValue(s[1..])
    else if IsDigits(s) then DigitsValue(s)
    else 0
  }

  lemma {:induction false} DigitsValueDigits(n: nat)
    ensures DigitsValue(Digits(n)) == n
  {
    if n >= 10 {
      DigitsValueDigits(n / 10);
      var s := Digits(n);
      assert s[..|s| - 1] == Digits(n / 10);
    }
  }

  /** A printed score is a plain token. */
  lemma DecimalPlain(n: int)
    ensures Plain(Decimal(n))
  {
    var d := if n < 0 then Digits(-n) else Digits(n);
    assert forall i :: 0 <= i < |d| ==> d[i] != ' ' && d[i] != ':' && d[i] != '{' && d[i] != '}';
    if n < 0 {
      assert Decimal(n) == "-" + d;
    }
  }

  /** A printed score reads back as itself. */
  lemma ParseDecimal(n: int)
    ensures ParseScore(Decimal(n)) == n
  {
    var d := Digits(if n < 0 then -n else n);
    DigitsValueDigits(if n < 0 then -n else n);
    if n < 0 {
      ParseNegative("-" + d, d);
    } else {
      assert '0' <= d[0] <= '9';
      assert IsDigits(d);
    }
  }

  lemma ParseNegative(s: string, d: string)
    requires s == "-" + d && IsDigits(d)
    ensures ParseScore(s) == 0 - DigitsValue(d)
  {
    assert s[1..] == d;
  }
}
