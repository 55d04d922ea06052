// The pattern language of YANG (section 9.4.6 of RFC 6020, W3C XSD-TYPES) and that of Go's regexp package,
// as two lexers over one token language and one parser.
module PatternSyntax {
  import opened Wrappers

  datatype Token =
    | Lit(c: char)        // a character that stands for itself
    | Esc(c: char)        // an escaped character other than \^ and \$, which are Lit
    | Op(c: char)         // one of | ( ) * + ? . { }
    | Begin | End         // the anchors of Go
    | Open(neg: bool)     // [ or [^
    | Item(c: char) | ItemEsc(c: char)
    | Close
    | Bad                 // not a token of the dialect

  datatype Mode = Top | First | Inside

  predicate IsOp(c: char) { c in "|()*+?.{}" }

  function EscTok(c: char): Token { if c == '^' || c == '$' then Lit(c) else Esc(c) }

  function ItemTok(c: char): Token { if c == '^' || c == '$' then Item(c) else ItemEsc(c) }

  // Top-level ^ and $ are anchors in Go and ordinary characters in YANG
  function TopTok(go: bool, c: char): Token {
    if c == '^' then (if go then Begin else Lit(c))
    else if c == '$' then (if go then End else Lit(c))
    else if c == ']' then (if go then Lit(c) else Bad)
    else if IsOp(c) then Op(c)
    else Lit(c)
  }

  function Lex(go: bool, mode: Mode, s: string): seq<Token>
    decreases |s|
  {
    if s == [] then (if mode == Top then [] else [Bad])
    else if s[0] == '\\' then
      if |s| == 1 then [Bad]
      else if mode == Top then [EscTok(s[1])] + Lex(go, Top, s[2..])
      else [ItemTok(s[1])] + Lex(go, Inside, s[2..])
    else if mode == Top then
      if s[0] == '[' then
        if |s| > 1 && s[1] == '^' then [Open(true)] + Lex(go, First, s[2..]) else [Open(false)] + Lex(go, First, s[1..])
      else [TopTok(go, s[0])] + Lex(go, Top, s[1..])
    else if s[0] == ']' && (mode == Inside || !go) then [if mode == Inside then Close else Bad] + Lex(go, Top, s[1..])
    else [if s[0] == '[' && !go then Bad else Item(s[0])] + Lex(go, Inside, s[1..])
  }

  // ---- grammar ----

  datatype Regex =
    | Empty | Char(c: char) | Escape(c: char) | Any | AtBegin | AtEnd
    | Category(neg: bool, name: string)   // \p{name} or \P{name}
    | Class(neg: bool, items: seq<Token>)
    | Cat(first: Regex, rest: Regex)
    | Alt(left: Regex, right: Regex)
    | Rep(body: Regex, lo: nat, hi: Option<nat>)

  type Parsed = Option<(Regex, seq<Token>)>

  predicate Stops(ts: seq<Token>) { ts == [] || ts[0] == Op('|') || ts[0] == Op(')') }

  function ParseAlt(ts: seq<Token>): (r: Parsed)
    ensures r.Some? ==> |r.value.1| <= |ts|
    decreases |ts|, 3
  {
    match ParseCat(ts)
    case None => None
    case Some((a, rest)) =>
      if rest != [] && rest[0] == Op('|') then
        match ParseAlt(rest[1..])
        case None => None
        case Some((b, rest2)) => Some((Alt(a, b), rest2))
      else Some((a, rest))
  }

  function ParseCat(ts: seq<Token>): (r: Parsed)
    ensures r.Some? ==> |r.value.1| <= |ts|
    decreases |ts|, 2
  {
    if Stops(ts) then Some((Empty, ts))
    else
      match ParsePiece(ts)
      case None => None
      case Some((a, rest)) =>
        match ParseCat(rest)
        case None => None
        case Some((b, rest2)) => Some((Cat(a, b), rest2))
  }

  function ParsePiece(ts: seq<Token>): (r: Parsed)
    ensures r.Some? ==> |r.value.1| < |ts|
    decreases |ts|, 1
  {
    match ParseAtom(ts)
    case None => None
    case Some((a, rest)) => Quantify(a, rest)
  }

  function Quantify(a: Regex, ts: seq<Token>): (r: Parsed)
    ensures r.Some? ==> |r.value.1| <= |ts|
  {
    if ts == [] then Some((a, ts))
    else if ts[0] == Op('*') then Some((Rep(a, 0, None), ts[1..]))
    else if ts[0] == Op('+') then Some((Rep(a, 1, None), ts[1..]))
    else if ts[0] == Op('?') then Some((Rep(a, 0, Some(1)), ts[1..]))
    else if ts[0] == Op('{') then
      var (lo, t1) := Number(ts[1..], 0);
      if t1 == [] || |t1| == |ts| - 1 then None
      else if t1[0] == Op('}') then Some((Rep(a, lo, Some(lo)), t1[1..]))
      else if t1[0] == Lit(',') then
        var (hi, t2) := Number(t1[1..], 0);
        if t2 == [] || t2[0] != Op('}') then None
        else Some((Rep(a, lo, if |t2| == |t1| - 1 then None else Some(hi)), t2[1..]))
      else None
    else Some((a, ts))
  }

  function Number(ts: seq<Token>, n: nat): (r: (nat, seq<Token>))
    ensures |r.1| <= |ts|
  {
    if ts != [] && ts[0].Lit? && '0' <= ts[0].c <= '9' then Number(ts[1..], 10 * n + (ts[0].c as int - '0' as int))
      else (n, ts)
  }

  predicate IsCategory(c: char) { c == 'p' || c == 'P' }

  // The name of a category, up to the closing brace
  function ParseName(ts: seq<Token>): (r: Option<(string, seq<Token>)>)
    ensures r.Some? ==> |r.value.1| < |ts|
  {
    if ts == [] then None
    else if ts[0] == Op('}') then Some(("", ts[1..]))
    else if ts[0].Lit? then
      match ParseName(ts[1..])
      case None => None
      case Some((name, rest)) => Some(([ts[0].c] + name, rest))
    else None
  }

  function ParseAtom(ts: seq<Token>): (r: Parsed)
    ensures r.Some? ==> |r.value.1| < |ts|
    decreases |ts|, 0
  {
    if ts == [] then None
    else match ts[0]
      case Lit(c) => Some((Char(c), ts[1..]))
      case Esc(c) =>
        if IsCategory(c) && |ts| > 1 && ts[1] == Op('{') then
          (match ParseName(ts[2..])
           case None => None
           case Some((name, rest)) => if name == "" then None else Some((Category(c == 'P', name), rest)))
        else Some((Escape(c), ts[1..]))
      case Begin => Some((AtBegin, ts[1..]))
      case End => Some((AtEnd, ts[1..]))
      case Open(neg) =>
        (match ParseItems(ts[1..])
         case None => None
         case Some((items, rest)) => if items == [] then None else Some((Class(neg, items), rest)))
      case Op(c) =>
        if c == '.' then Some((Any, ts[1..]))
        else if c == '(' then
          (match ParseAlt(ts[1..])
           case None => None
           case Some((a, rest)) => if rest != [] && rest[0] == Op(')') then Some((a, rest[1..])) else None)
        else None
      case _ => None
  }

  function ParseItems(ts: seq<Token>): (r: Option<(seq<Token>, seq<Token>)>)
    ensures r.Some? ==> |r.value.1| < |ts|
  {
    if ts == [] then None
    else if ts[0] == Close then Some(([], ts[1..]))
    else if ts[0].Item? || ts[0].ItemEsc? then
      match ParseItems(ts[1..])
      case None => None
      case Some((items, rest)) => Some(([ts[0]] + items, rest))
    else None
  }

  function Parse(ts: seq<Token>): Option<Regex> {
    match ParseAlt(ts)
    case None => None
    case Some((r, rest)) => if rest == [] then Some(r) else None
  }

  function ParseYang(pattern: string): Option<Regex> { Parse(Lex(false, Top, pattern)) }

  function ParseGo(pattern: string): Option<Regex> { Parse(Lex(true, Top, pattern)) }

  // ---- meaning ----

  // What the dialects leave to character tables: the classes of escapes, the categories, and the characters `.` stands
  // for
  datatype Tables = Tables(esc: (char, char) -> bool, cat: (string, char) -> bool, dot: char -> bool)

  // The name of a category among the items of a class
  function ItemName(items: seq<Token>): (r: Option<(string, seq<Token>)>)
    ensures r.Some? ==> |r.value.1| < |items|
  {
    if items == [] || !items[0].Item? then None
    else if items[0].c == '}' then Some(("", items[1..]))
    else
      match ItemName(items[1..])
      case None => None
      case Some((name, rest)) => Some(([items[0].c] + name, rest))
  }

  predicate InItems(t: Tables, items: seq<Token>, x: char)
    decreases |items|
  {
    if items == [] then false
    else if |items| >= 3 && items[0].Item? && items[1] == Item('-') && items[2].Item? then
      items[0].c <= x <= items[2].c || InItems(t, items[3..], x)
    else if |items| >= 2 && items[0].ItemEsc? && IsCategory(items[0].c) && items[1] == Item('{')
      && ItemName(items[2..]).Some? then
      var (name, rest) := ItemName(items[2..]).value;
      t.cat(name, x) == (items[0].c == 'p') || InItems(t, rest, x)
    else
      (match items[0] case Item(c) => x == c case ItemEsc(c) => t.esc(c, x) case _ => false)
        || InItems(t, items[1..], x)
  }

  // r matches s[i..j]
  ghost predicate Matches(t: Tables, r: Regex, s: string, i: nat, j: nat)
    requires i <= j <= |s|
    decreases r, 0
  {
    match r
    case Empty => i == j
    case Char(c) => j == i + 1 && s[i] == c
    case Escape(c) => j == i + 1 && t.esc(c, s[i])
    case Category(neg, name) => j == i + 1 && t.cat(name, s[i]) != neg
    case Any => j == i + 1 && t.dot(s[i])
    case AtBegin => i == j == 0
    case AtEnd => i == j == |s|
    case Class(neg, items) => j == i + 1 && InItems(t, items, s[i]) != neg
    case Cat(a, b) => exists k :: i <= k <= j && Matches(t, a, s, i, k) && Matches(t, b, s, k, j)
    case Alt(a, b) => Matches(t, a, s, i, j) || Matches(t, b, s, i, j)
    case Rep(a, lo, hi) => exists n: nat :: lo <= n && (hi.Some? ==> n <= hi.value) && MatchesTimes(t, a, n, s, i, j)
  }

  ghost predicate MatchesTimes(t: Tables, r: Regex, n: nat, s: string, i: nat, j: nat)
    requires i <= j <= |s|
    decreases r, 1, n
  {
    if n == 0 then i == j
    else exists k :: i <= k <= j && Matches(t, r, s, i, k) && MatchesTimes(t, r, n - 1, s, k, j)
  }

  // A YANG pattern is matched against the whole string
  ghost predicate YangAccepts(t: Tables, r: Regex, s: string) { Matches(t, r, s, 0, |s|) }

  // regexp.MatchString searches for a match anywhere
  ghost predicate GoAccepts(t: Tables, r: Regex, s: string) {
    exists i: nat, j: nat :: i <= j <= |s| && Matches(t, r, s, i, j)
  }
}
