/**
 The netlink daemon's `xpath_split`, an index-driven parser of instance paths, against the printer of such
 paths on the gNMI side. Besides errors it can panic, on a name that is not there or a slice past the end.
 */
module XPath {
  import opened Results

  datatype Cond = Cond(key: string, value: string)

  datatype Elem = Elem(prefix: Option<string>, name: string, conds: seq<Cond>)

  datatype Failure = EmptyPath | NoEquals | NoClosingQuote | Panic

  type Parsed<T> = Result<(T, string), Failure>

  /** `[-\w]`. Which characters outside ASCII `\w` matches is a parameter of all that follows. */
  predicate Word(letter: char -> bool, c: char) {
    if Ascii(c) then 'a' <= c <= 'z' || 'A' <= c <= 'Z' || '0' <= c <= '9' || c == '_' || c == '-' else letter(c)
  }

  /** `[-\w\*]`. */
  predicate NameChar(letter: char -> bool, c: char) {
    Word(letter, c) || c == '*'
  }

  predicate Ascii(c: char) {
    c as int < 128
  }

  /** Among the one-byte characters: letters, digits, the underscore and the hyphen, and in a name the asterisk. */
  lemma WordChars(letter: char -> bool, c: char)
    requires Ascii(c)
    ensures var n := c as int;
            && (Word(letter, c) <==> 0x30 <= n <= 0x39 || 0x41 <= n <= 0x5A || 0x61 <= n <= 0x7A || n == 0x5F || n == 0x2D)
            && (NameChar(letter, c) <==> Word(letter, c) || n == 0x2A)
  {
  }

  /** Length of the longest prefix of characters satisfying `[-\w]`, and of `[-\w\*]`. */
  function WordRun(letter: char -> bool, s: string): (n: nat)
    ensures n <= |s| && (forall k :: 0 <= k < n ==> Word(letter, s[k])) && (n < |s| ==> !Word(letter, s[n]))
  {
    if s != [] && Word(letter, s[0]) then 1 + WordRun(letter, s[1..]) else 0
  }

  function NameRun(letter: char -> bool, s: string): (n: nat)
    ensures n <= |s| && (forall k :: 0 <= k < n ==> NameChar(letter, s[k])) && (n < |s| ==> !NameChar(letter, s[n]))
  {
    if s != [] && NameChar(letter, s[0]) then 1 + NameRun(letter, s[1..]) else 0
  }

  /** `str::find`. */
  function Find(s: string, c: char): (j: Option<nat>)
    ensures j.Some? ==> j.value < |s| && s[j.value] == c && c !in s[..j.value]
    ensures j.None? ==> c !in s
  {
    if s == [] then None
    else if s[0] == c then Some(0)
    else
      match Find(s[1..], c)
      case None => None
      case Some(j) => assert s[..j + 1] == [s[0]] + s[1..][..j]; Some(j + 1)
  }

  /** The element expression: an optional prefix with a colon, then a name; what is matched is taken off. */
  function MatchName(letter: char -> bool, s: string): (r: Option<(Option<string>, string, string)>)
    ensures r.Some? ==> |r.value.2| < |s| && r.value.2 == s[|s| - |r.value.2|..]
  {
    var p := WordRun(letter, s);
    if p > 0 && p < |s| && s[p] == ':' && NameRun(letter, s[p + 1..]) > 0 then
      var rest := s[p + 1..];
      var n := NameRun(letter, rest);
      Some((Some(s[..p]), rest[..n], rest[n..]))
    else
      var n := NameRun(letter, s);
      if n > 0 then Some((None, s[..n], s[n..])) else None
  }

  /**
   One condition after its opening bracket. Any one-byte character serves as the quote; the character after
   the closing quote is skipped unseen.
   */
  function ParseCond(s: string): (r: Parsed<Cond>)
    ensures r.Ok? ==> |r.value.1| < |s|
  {
    match Find(s, '=')
    case None => Raised(NoEquals)
    case Some(j) =>
      if |s| < j + 2 || !Ascii(s[j + 1]) then Raised(Panic)
      else
        ParseValue(s[..j], s[j + 1], s[j + 2..])
  }

  /** Its value, after the opening quote. */
  function ParseValue(key: string, quote: char, u: string): (r: Parsed<Cond>)
    ensures r.Ok? ==> |r.value.1| < |u|
  {
    match Find(u, quote)
    case None => Raised(NoClosingQuote)
    case Some(l) =>
      if |u| < l + 2 || !Ascii(u[l + 1]) then Raised(Panic) else Ok((Cond(key, u[..l]), u[l + 2..]))
  }

  function ParseConds(s: string): (r: Parsed<seq<Cond>>)
    ensures r.Ok? ==> |r.value.1| <= |s|
    decreases |s|
  {
    if s == [] || s[0] != '[' then Ok(([], s))
    else
      match ParseCond(s[1..])
      case Raised(f) => Raised(f)
      case Ok((c, rest)) =>
        match ParseConds(rest)
        case Raised(f) => Raised(f)
        case Ok((cs, end)) => Ok(([c] + cs, end))
  }

  function SkipSlash(s: string): string {
    if s != [] && s[0] == '/' then s[1..] else s
  }

  /** One turn of the outer loop. Every element takes something off the path. */
  function ParseElem(letter: char -> bool, s: string): (r: Parsed<Elem>)
    ensures r.Ok? ==> |r.value.1| < |s|
  {
    match MatchName(letter, SkipSlash(s))
    case None => Raised(Panic)
    case Some((prefix, name, rest)) =>
      match ParseConds(rest)
      case Raised(f) => Raised(f)
      case Ok((cs, end)) => Ok((Elem(prefix, name, cs), end))
  }

  function ParseElems(letter: char -> bool, s: string): Result<seq<Elem>, Failure>
    decreases |s|
  {
    match ParseElem(letter, s)
    case Raised(f) => Raised(f)
    case Ok((e, rest)) =>
      if rest == [] then Ok([e])
      else
        match ParseElems(letter, rest)
        case Raised(f) => Raised(f)
        case Ok(es) => Ok([e] + es)
  }

  function Parse(letter: char -> bool, s: string): Result<seq<Elem>, Failure> {
    if s == [] then Raised(EmptyPath) else ParseElems(letter, s)
  }

  function Onto<T>(first: seq<T>, r: Result<seq<T>, Failure>): Result<seq<T>, Failure> {
    match r
    case Raised(f) => Raised(f)
    case Ok(more) => Ok(first + more)
  }

  function OntoConds(first: seq<Cond>, r: Parsed<seq<Cond>>): Parsed<seq<Cond>> {
    match r
    case Raised(f) => Raised(f)
    case Ok((more, rest)) => Ok((first + more, rest))
  }

  /** The inner loop of `xpath_split`, from index `start`. */
  method SplitConds(xpath: string, start: nat) returns (r: Result<seq<Cond>, Failure>, i: nat)
    requires start <= |xpath|
    ensures start <= i <= |xpath|
    ensures ParseConds(xpath[start..]) == if r.Ok? then Ok((r.value, xpath[i..])) else Raised(r.error)
  {
    i := start;
    var cond := [];
    OntoCondsNone(ParseConds(xpath[start..]));
    while true
      invariant start <= i <= |xpath|
      invariant ParseConds(xpath[start..]) == OntoConds(cond, ParseConds(xpath[i..]))
      decreases |xpath| - i
    {
      ghost var at := i;
      if Find(xpath[i..], '[') != Some(0) {
        assert cond + [] == cond;
        return Ok(cond), i;
      }
      i := i + 1;
      assert xpath[at..][1..] == xpath[i..];
      var c := SplitCond(xpath, i);
      match c
      case Raised(f) => return Raised(f), i;
      case Ok((one, end)) =>
        assert cond + ([one] + []) == cond + [one];
        OntoCondsMore(cond, one, ParseConds(xpath[end..]));
        cond, i := cond + [one], end;
    }
  }

  lemma OntoCondsNone(r: Parsed<seq<Cond>>)
    ensures OntoConds([], r) == r
  {
    if r.Ok? {
      assert [] + r.value.0 == r.value.0;
    }
  }

  lemma OntoCondsMore(first: seq<Cond>, one: Cond, r: Parsed<seq<Cond>>)
    ensures OntoConds(first, OntoConds([one], r)) == OntoConds(first + [one], r)
  {
    if r.Ok? {
      assert first + ([one] + r.value.0) == (first + [one]) + r.value.0;
    }
  }

  /** Its body: one condition, by indices into the whole path. */
  method SplitCond(xpath: string, start: nat) returns (r: Result<(Cond, nat), Failure>)
    requires start <= |xpath|
    ensures r.Ok? ==> start < r.value.1 <= |xpath|
    ensures ParseCond(xpath[start..])
            == if r.Ok? then Ok((r.value.0, xpath[r.value.1..])) else Raised(r.error)
  {
    var j := Find(xpath[start..], '=');
    if j.None? {
      return Raised(NoEquals);
    }
    var k := start + j.value;
    var key := xpath[start..k];
    Sliced(xpath, start, j.value);
    if |xpath| < k + 2 || !Ascii(xpath[k + 1]) {
      return Raised(Panic);
    }
    Sliced(xpath, start, j.value + 2);
    r := SplitValue(xpath, k + 2, key, xpath[k + 1]);
  }

  method SplitValue(xpath: string, start: nat, key: string, quote: char) returns (r: Result<(Cond, nat), Failure>)
    requires start <= |xpath|
    ensures r.Ok? ==> start < r.value.1 <= |xpath|
    ensures ParseValue(key, quote, xpath[start..])
            == if r.Ok? then Ok((r.value.0, xpath[r.value.1..])) else Raised(r.error)
  {
    var l := Find(xpath[start..], quote);
    if l.None? {
      return Raised(NoClosingQuote);
    }
    var k := start + l.value;
    var value := xpath[start..k];
    Sliced(xpath, start, l.value);
    if |xpath| < k + 2 || !Ascii(xpath[k + 1]) {
      return Raised(Panic);
    }
    Sliced(xpath, start, l.value + 2);
    return Ok((Cond(key, value), k + 2));
  }

  lemma Sliced(s: string, a: nat, b: nat)
    requires a + b <= |s|
    ensures s[a..][..b] == s[a..a + b] && s[a..][b..] == s[a + b..]
  {
  }

  /** One turn of the outer loop of `xpath_split`, by indices. */
  method SplitElem(letter: char -> bool, xpath: string, start: nat) returns (r: Result<(Elem, nat), Failure>)
    requires start < |xpath|
    ensures r.Ok? ==> start < r.value.1 <= |xpath|
    ensures ParseElem(letter, xpath[start..])
            == if r.Ok? then Ok((r.value.0, xpath[r.value.1..])) else Raised(r.error)
  {
    var i := start;
    if Find(xpath[i..], '/') == Some(0) {
      i := i + 1;
    }
    assert xpath[i..] == SkipSlash(xpath[start..]);
    var caps := MatchName(letter, xpath[i..]);
    if caps.None? {
      return Raised(Panic);
    }
    i := |xpath| - |caps.value.2|;
    assert xpath[i..] == caps.value.2;
    var conds, end := SplitConds(xpath, i);
    if conds.Raised? {
      return Raised(conds.error);
    }
    return Ok((Elem(caps.value.0, caps.value.1, conds.value), end));
  }

  /** `xpath_split`. */
  method Split(letter: char -> bool, xpath: string) returns (r: Result<seq<Elem>, Failure>)
    ensures r == Parse(letter, xpath)
  {
    if |xpath| == 0 {
      return Raised(EmptyPath);
    }
    var i, output := 0, [];
    assert xpath[0..] == xpath;
    OntoNone(ParseElems(letter, xpath));
    while true
      invariant 0 <= i < |xpath|
      invariant Parse(letter, xpath) == Onto(output, ParseElems(letter, xpath[i..]))
      decreases |xpath| - i
    {
      var elem := SplitElem(letter, xpath, i);
      match elem
      case Raised(f) => return Raised(f);
      case Ok((e, end)) =>
        if |xpath| <= end {
          assert xpath[end..] == [];
          return Ok(output + [e]);
        }
        OntoMore(output, e, ParseElems(letter, xpath[end..]));
        i, output := end, output + [e];
    }
  }

  lemma OntoNone(r: Result<seq<Elem>, Failure>)
    ensures Onto([], r) == r
  {
    if r.Ok? {
      assert [] + r.value == r.value;
    }
  }

  lemma OntoMore(first: seq<Elem>, one: Elem, r: Result<seq<Elem>, Failure>)
    ensures Onto(first, Onto([one], r)) == Onto(first + [one], r)
  {
    if r.Ok? {
      assert first + ([one] + r.value) == (first + [one]) + r.value;
    }
  }

  // ----- the printer -----

  function PrintCond(c: Cond, quote: char): string {
    "[" + c.key + "=" + [quote] + c.value + [quote] + "]"
  }

  function PrintConds(cs: seq<Cond>, quote: char): string {
    if cs == [] then "" else PrintCond(cs[0], quote) + PrintConds(cs[1..], quote)
  }

  function PrintName(e: Elem): string {
    if e.prefix.Some? then e.prefix.value + ":" + e.name else e.name
  }

  /** The path of a list of elements: each after a slash, its keys in brackets with quoted values. */
  function Print(es: seq<Elem>, quote: char): string {
    if es == [] then ""
    else "/" + PrintName(es[0]) + PrintConds(es[0].conds, quote) + Print(es[1..], quote)
  }

  // ----- what is legal -----

  ghost predicate LegalName(letter: char -> bool, e: Elem) {
    && e.name != "" && (forall c :: c in e.name ==> NameChar(letter, c))
    && (e.prefix.Some? ==> e.prefix.value != "" && forall c :: c in e.prefix.value ==> Word(letter, c))
  }

  ghost predicate LegalKeys(cs: seq<Cond>) {
    forall c :: c in cs ==> '=' !in c.key
  }

  ghost predicate Unquoted(cs: seq<Cond>, quote: char) {
    forall c :: c in cs ==> quote !in c.value
  }

  ghost predicate AllUnquoted(es: seq<Elem>, quote: char) {
    forall e :: e in es ==> Unquoted(e.conds, quote)
  }

  ghost predicate Legal(letter: char -> bool, es: seq<Elem>) {
    forall e :: e in es ==> LegalName(letter, e) && LegalKeys(e.conds)
  }

  /** Everything the parser returns has legal names and keys. */
  lemma {:induction false} ParsedConds(s: string)
    ensures var r := ParseConds(s); r.Ok? ==> LegalKeys(r.value.0)
    decreases |s|
  {
    if s != [] && s[0] == '[' {
      var c := ParseCond(s[1..]);
      if c.Ok? {
        ParsedConds(c.value.1);
      }
    }
  }

  lemma MatchedName(letter: char -> bool, s: string)
    ensures var m := MatchName(letter, s);
            m.Some? ==> LegalName(letter, Elem(m.value.0, m.value.1, []))
  {
    var m := MatchName(letter, s);
    if m.Some? {
      var rest := if m.value.0.Some? then s[WordRun(letter, s) + 1..] else s;
      assert m.value.1 == rest[..NameRun(letter, rest)];
    }
  }

  lemma {:induction false} ParsedElems(letter: char -> bool, s: string)
    ensures var r := ParseElems(letter, s); r.Ok? ==> r.value != [] && Legal(letter, r.value)
    decreases |s|
  {
    ParsedElem(letter, s);
    var e := ParseElem(letter, s);
    StepOf(letter, s, e);
    if e.Ok? && e.value.1 != [] {
      ParsedElems(letter, e.value.1);
    }
  }

  lemma ParsedElem(letter: char -> bool, s: string)
    ensures var r := ParseElem(letter, s); r.Ok? ==> LegalName(letter, r.value.0) && LegalKeys(r.value.0.conds)
  {
    MatchedName(letter, SkipSlash(s));
    var m := MatchName(letter, SkipSlash(s));
    if m.Some? {
      ParsedConds(m.value.2);
    }
  }

  // ----- steps of the parser -----

  lemma {:induction false} FindFirst(a: string, c: char, b: string)
    requires c !in a
    ensures Find(a + [c] + b, c) == Some(|a|)
  {
    var s := a + [c] + b;
    if a != [] {
      FindFirst(a[1..], c, b);
      assert s[1..] == a[1..] + [c] + b && s[0] == a[0];
    }
  }

  lemma {:induction false} WordRunIs(letter: char -> bool, p: string, s: string)
    requires forall c :: c in p ==> Word(letter, c)
    requires s == [] || !Word(letter, s[0])
    ensures WordRun(letter, p + s) == |p|
  {
    if p == [] {
      assert p + s == s;
    } else {
      WordRunIs(letter, p[1..], s);
      assert (p + s)[1..] == p[1..] + s && (p + s)[0] == p[0] && p[0] in p;
    }
  }

  lemma {:induction false} NameRunIs(letter: char -> bool, p: string, s: string)
    requires forall c :: c in p ==> NameChar(letter, c)
    requires s == [] || !NameChar(letter, s[0])
    ensures NameRun(letter, p + s) == |p|
  {
    if p == [] {
      assert p + s == s;
    } else {
      NameRunIs(letter, p[1..], s);
      assert (p + s)[1..] == p[1..] + s && (p + s)[0] == p[0] && p[0] in p;
    }
  }

  lemma ElemStep(letter: char -> bool, s: string, prefix: Option<string>, name: string, rest: string)
    requires MatchName(letter, SkipSlash(s)) == Some((prefix, name, rest))
    ensures var r := ParseConds(rest);
            ParseElem(letter, s) == if r.Raised? then Raised(r.error) else Ok((Elem(prefix, name, r.value.0), r.value.1))
  {
  }

  /** The parsed list is the first element parsed and what the rest of the path gives. */
  lemma StepOf(letter: char -> bool, s: string, first: Parsed<Elem>)
    requires ParseElem(letter, s) == first
    ensures ParseElems(letter, s)
            == if first.Raised? then Raised(first.error)
               else if first.value.1 == [] then Ok([first.value.0])
               else Onto([first.value.0], ParseElems(letter, first.value.1))
  {
  }

  /** What goes wrong in the first condition goes wrong with the path. */
  lemma FirstCondFails(letter: char -> bool, name: string, t: string)
    requires name != "" && (forall c :: c in name ==> NameChar(letter, c)) && ParseCond(t).Raised?
    ensures Parse(letter, name + "[" + t) == Raised(ParseCond(t).error)
  {
    var s, u := name + "[" + t, "[" + t;
    assert s == name + u;
    NameThen(letter, Elem(None, name, []), u);
    NoSlashFirst(letter, Elem(None, name, []), u);
    ElemStep(letter, s, None, name, u);
    CondStep(t);
    StepOf(letter, s, ParseElem(letter, s));
  }

  /** A closing quote at the very end is not an error but a panic: what follows it is skipped unseen. */
  lemma EndsAtQuote(letter: char -> bool, name: string, key: string, value: string)
    requires name != "" && (forall c :: c in name ==> NameChar(letter, c)) && '=' !in key && '\'' !in value
    ensures Parse(letter, name + "[" + (key + "='" + value + "'")) == Raised(Panic)
    ensures Parse(letter, name + "[" + (key + "='" + value)) == Raised(NoClosingQuote)
  {
    OpenCond(key, value);
    FirstCondFails(letter, name, key + "='" + value + "'");
    FirstCondFails(letter, name, key + "='" + value);
  }

  lemma OpenCond(key: string, value: string)
    requires '=' !in key && '\'' !in value
    ensures ParseCond(key + "='" + value + "'") == Raised(Panic)
    ensures ParseCond(key + "='" + value) == Raised(NoClosingQuote)
  {
    assert key + "='" + value == key + "=" + ("'" + value);
    assert key + "='" + value + "'" == key + "=" + ("'" + value + "'");
    FindFirst(key, '=', "'" + value);
    FindFirst(key, '=', "'" + value + "'");
    assert (key + "='" + value)[|key| + 2..] == value;
    assert (key + "='" + value + "'")[|key| + 2..] == value + ['\''] + [];
    FindFirst(value, '\'', []);
  }

  // ----- the shape of a path, as text -----

  /** A complete condition; `skipped` stands where the closing bracket should. */
  datatype CondText = CondText(key: string, quote: char, value: string, skipped: char) {
    ghost predicate Legal() {
      '=' !in key && Ascii(quote) && quote !in value && Ascii(skipped)
    }

    /** The condition after its opening bracket. */
    function Inner(): string {
      key + "=" + [quote] + value + [quote] + [skipped]
    }

    function Meaning(): Cond {
      Cond(key, value)
    }
  }

  function CondsText(cs: seq<CondText>): string {
    if cs == [] then "" else "[" + cs[0].Inner() + CondsText(cs[1..])
  }

  function Conds(cs: seq<CondText>): seq<Cond> {
    if cs == [] then [] else [cs[0].Meaning()] + Conds(cs[1..])
  }

  ghost predicate LegalConds(cs: seq<CondText>) {
    forall c :: c in cs ==> c.Legal()
  }

  datatype ElemText = ElemText(slash: bool, prefix: Option<string>, name: string, conds: seq<CondText>) {
    function Head(): Elem {
      Elem(prefix, name, [])
    }

    function Text(): string {
      (if slash then "/" else "") + PrintName(Head()) + CondsText(conds)
    }

    function Meaning(): Elem {
      Elem(prefix, name, Conds(conds))
    }
  }

  /**
   The name ends where `rest` begins: it does not go on, and what could have been a prefix is not followed by a
   colon and a name.
   */
  ghost predicate NameEnds(letter: char -> bool, e: Elem, rest: string) {
    && (rest == "" || !NameChar(letter, rest[0]))
    && (e.prefix.None? && (forall c :: c in e.name ==> Word(letter, c)) && |rest| > 1 && rest[0] == ':' ==>
          !NameChar(letter, rest[1]))
  }

  /** A complete element with `rest` after it. */
  ghost predicate Complete(letter: char -> bool, e: ElemText, rest: string) {
    && LegalName(letter, e.Head()) && LegalConds(e.conds) && NameEnds(letter, e.Head(), CondsText(e.conds) + rest)
    && (rest == "" || rest[0] != '[')
  }

  function Texts(es: seq<ElemText>): string {
    if es == [] then "" else es[0].Text() + Texts(es[1..])
  }

  function Meanings(es: seq<ElemText>): seq<Elem> {
    if es == [] then [] else [es[0].Meaning()] + Meanings(es[1..])
  }

  /** Complete elements, one after the other, and `tail` after them. */
  ghost predicate Chain(letter: char -> bool, es: seq<ElemText>, tail: string) {
    es != [] ==> Complete(letter, es[0], Texts(es[1..]) + tail) && Chain(letter, es[1..], tail)
  }

  /** No character, or a character of more than one byte. */
  ghost predicate NoByte(s: string) {
    s == "" || !Ascii(s[0])
  }

  /** After the equals sign: no quote to open, or nothing to skip after the closing one. */
  ghost predicate BadQuotes(s: string) {
    || NoByte(s)
    || exists value, after :: ClosedThen(s, value, after) && NoByte(after)
  }

  /** A quoted value, then `after`. */
  ghost predicate ClosedThen(s: string, value: string, after: string) {
    s != "" && Ascii(s[0]) && s[0] !in value && s == [s[0]] + value + [s[0]] + after
  }

  ghost predicate Unclosed(s: string) {
    s != "" && Ascii(s[0]) && s[0] !in s[1..]
  }

  /** What follows an opening bracket for a condition to fail, and how it fails. */
  ghost predicate BadCond(s: string, f: Failure) {
    match f
    case EmptyPath => false
    case NoEquals => '=' !in s
    case NoClosingQuote => exists key, more :: '=' !in key && s == key + "=" + more && Unclosed(more)
    case Panic => exists key, more :: '=' !in key && s == key + "=" + more && BadQuotes(more)
  }

  /** After an optional slash there is no name. */
  ghost predicate NoName(letter: char -> bool, s: string) {
    var t := SkipSlash(s);
    t == "" || !NameChar(letter, t[0])
  }

  /** An element whose name is there and whose first conditions are complete, and then a bad one. */
  ghost predicate BadElem(letter: char -> bool, s: string, e: ElemText, more: string, f: Failure) {
    && s == e.Text() + ("[" + more) && BadCond(more, f)
    && LegalName(letter, e.Head()) && LegalConds(e.conds) && NameEnds(letter, e.Head(), CondsText(e.conds) + ("[" + more))
  }

  ghost predicate BadTail(letter: char -> bool, s: string, f: Failure) {
    (f == Panic && NoName(letter, s)) || exists e, more :: BadElem(letter, s, e, more, f)
  }

  // ----- conditions -----

  /** Where the key ends; the same text has only one such place. */
  lemma KeySplit(s: string, key: string, more: string)
    requires '=' !in key && s == key + "=" + more
    ensures Find(s, '=') == Some(|key|) && s[..|key|] == key && s[|key| + 1..] == more
  {
    FindFirst(key, '=', more);
    assert s == key + ['='] + more;
  }

  /** A condition is parsed after its key as its value is. */
  lemma CondByKey(s: string, key: string, more: string)
    requires '=' !in key && s == key + "=" + more
    ensures ParseCond(s) == if NoByte(more) then Raised(Panic) else ParseValue(key, more[0], more[1..])
  {
    KeySplit(s, key, more);
    if more != "" {
      assert s[|key| + 1] == more[0] && s[|key| + 2..] == more[1..];
    }
  }

  lemma KeyOf(s: string) returns (key: string, more: string)
    requires '=' in s
    ensures '=' !in key && s == key + "=" + more
  {
    var j := Find(s, '=').value;
    key, more := s[..j], s[j + 1..];
    assert s == s[..j] + [s[j]] + s[j + 1..];
  }

  /** A value, by what follows its closing quote. */
  lemma ValueByQuote(key: string, quote: char, value: string, after: string)
    requires quote !in value
    ensures ParseValue(key, quote, value + [quote] + after)
            == if NoByte(after) then Raised(Panic) else Ok((Cond(key, value), after[1..]))
  {
    var u := value + [quote] + after;
    FindFirst(value, quote, after);
    assert u[..|value|] == value;
    if after != "" {
      assert u[|value| + 1] == after[0] && u[|value| + 2..] == after[1..];
    }
  }

  lemma ValueUnclosed(key: string, quote: char, u: string)
    ensures ParseValue(key, quote, u) == Raised(NoClosingQuote) <==> quote !in u
  {
    if quote in u {
      var l := Find(u, quote).value;
    }
  }

  lemma ValueOf(quote: char, u: string) returns (value: string, after: string)
    requires quote in u
    ensures quote !in value && u == value + [quote] + after
  {
    var l := Find(u, quote).value;
    value, after := u[..l], u[l + 1..];
    assert u == u[..l] + [u[l]] + u[l + 1..];
  }

  lemma InnerJoins(c: CondText, rest: string)
    ensures c.Inner() + rest == c.key + "=" + ([c.quote] + (c.value + [c.quote] + ([c.skipped] + rest)))
  {
  }

  lemma CondParses(c: CondText, rest: string)
    requires c.Legal()
    ensures ParseCond(c.Inner() + rest) == Ok((c.Meaning(), rest))
  {
    var more := [c.quote] + (c.value + [c.quote] + ([c.skipped] + rest));
    InnerJoins(c, rest);
    CondByKey(c.Inner() + rest, c.key, more);
    assert more[1..] == c.value + [c.quote] + ([c.skipped] + rest);
    ValueByQuote(c.key, c.quote, c.value, [c.skipped] + rest);
    assert ([c.skipped] + rest)[1..] == rest;
  }

  /** Of a condition's characters two have to be of one byte: the quote, and what stands for the closing bracket. */
  lemma OneByteQuotes(key: string, quote: char, value: string, skipped: char, rest: string)
    requires '=' !in key && quote !in value
    ensures ParseCond(key + "=" + ([quote] + (value + [quote] + ([skipped] + rest))))
            == if quote as int < 0x80 && skipped as int < 0x80 then Ok((Cond(key, value), rest)) else Raised(Panic)
  {
    var after := [skipped] + rest;
    var more := [quote] + (value + [quote] + after);
    CondByKey(key + "=" + more, key, more);
    assert more[1..] == value + [quote] + after && after[1..] == rest;
    ValueByQuote(key, quote, value, after);
  }

  /** A condition that parses is a complete one. */
  lemma CondDecodes(s: string) returns (c: CondText)
    requires ParseCond(s).Ok?
    ensures c.Legal() && s == c.Inner() + ParseCond(s).value.1 && ParseCond(s).value.0 == c.Meaning()
  {
    var key, more := KeyOf(s);
    CondByKey(s, key, more);
    var quote, u := more[0], more[1..];
    assert more == [quote] + u;
    ValueUnclosed(key, quote, u);
    var value, after := ValueOf(quote, u);
    ValueByQuote(key, quote, value, after);
    c := CondText(key, quote, value, after[0]);
    assert after == [after[0]] + after[1..];
    InnerJoins(c, after[1..]);
  }

  /** And how one fails. */
  lemma CondFailsExactly(s: string, f: Failure)
    ensures ParseCond(s) == Raised(f) <==> BadCond(s, f)
  {
    if '=' in s {
      var key, more := KeyOf(s);
      CondByKey(s, key, more);
      forall k, m | '=' !in k && s == k + "=" + m ensures k == key && m == more {
        KeySplit(s, key, more);
        KeySplit(s, k, m);
      }
      QuotesFailExactly(key, more);
      assert BadCond(s, Panic) <==> BadQuotes(more);
      assert BadCond(s, NoClosingQuote) <==> Unclosed(more);
    } else {
      forall k: string, m: string ensures s != k + "=" + m {
        assert '=' in k + "=" + m by {
          assert (k + "=" + m)[|k|] == '=';
        }
      }
    }
  }

  lemma QuotesFailExactly(key: string, more: string)
    ensures var r := if NoByte(more) then Raised(Panic) else ParseValue(key, more[0], more[1..]);
            && (r == Raised(Panic) <==> BadQuotes(more))
            && (r == Raised(NoClosingQuote) <==> Unclosed(more))
            && r != Raised(NoEquals) && r != Raised(EmptyPath)
  {
    if !NoByte(more) {
      var quote, u := more[0], more[1..];
      assert more == [quote] + u;
      ValueUnclosed(key, quote, u);
      if quote in u {
        var value, after := ValueOf(quote, u);
        ValueByQuote(key, quote, value, after);
        assert ClosedThen(more, value, after) by {
          assert more == [quote] + value + [quote] + after;
        }
        forall v, a | ClosedThen(more, v, a) ensures v == value && a == after {
          ClosedOnce(quote, u, value, after, v, a);
        }
      } else {
        forall v: string, a: string | ClosedThen(more, v, a) {
          ClosedHasQuote(more, v, a);
        }
      }
    }
  }

  lemma ClosedHasQuote(s: string, value: string, after: string)
    requires ClosedThen(s, value, after)
    ensures s[0] in s[1..]
  {
    assert s[1..] == value + [s[0]] + after;
    assert s[1..][|value|] == s[0];
  }

  lemma ClosedOnce(quote: char, u: string, value: string, after: string, v: string, a: string)
    requires quote !in value && quote !in v && u == value + [quote] + after
    requires [quote] + u == [quote] + v + [quote] + a
    ensures v == value && a == after
  {
    assert u == ([quote] + u)[1..] == v + [quote] + a;
    FindFirst(value, quote, after);
    FindFirst(v, quote, a);
    assert u[..|value|] == value && u[..|v|] == v;
    assert u[|value| + 1..] == after && u[|v| + 1..] == a;
  }

  // ----- lists of conditions -----

  lemma CondsTextJoins(cs: seq<CondText>, t: string)
    requires cs != []
    ensures CondsText(cs) + t == "[" + (cs[0].Inner() + (CondsText(cs[1..]) + t))
  {
  }

  /** One condition off the front. */
  lemma CondStep(u: string)
    ensures ParseConds("[" + u)
            == match ParseCond(u)
               case Raised(f) => Raised(f)
               case Ok((x, rest)) => OntoConds([x], ParseConds(rest))
  {
    assert ("[" + u)[1..] == u;
  }

  /** Complete conditions are parsed, and then what follows. */
  lemma {:induction false} CondsThen(cs: seq<CondText>, t: string)
    requires LegalConds(cs)
    ensures ParseConds(CondsText(cs) + t) == OntoConds(Conds(cs), ParseConds(t))
  {
    if cs == [] {
      assert CondsText(cs) + t == t;
      OntoCondsNone(ParseConds(t));
    } else {
      var rest := CondsText(cs[1..]) + t;
      CondsTextJoins(cs, t);
      assert cs[0] in cs;
      CondParses(cs[0], rest);
      CondStep(cs[0].Inner() + rest);
      CondsThen(cs[1..], t);
      OntoCondsTwice([cs[0].Meaning()], Conds(cs[1..]), ParseConds(t));
    }
  }

  lemma OntoCondsTwice(a: seq<Cond>, b: seq<Cond>, r: Parsed<seq<Cond>>)
    ensures OntoConds(a, OntoConds(b, r)) == OntoConds(a + b, r)
  {
    if r.Ok? {
      assert a + (b + r.value.0) == (a + b) + r.value.0;
    }
  }

  /** Parsed conditions are complete ones, up to where no other begins. */
  lemma {:induction false} CondsDecode(s: string) returns (cs: seq<CondText>)
    requires ParseConds(s).Ok?
    ensures var (xs, rest) := ParseConds(s).value;
            LegalConds(cs) && s == CondsText(cs) + rest && xs == Conds(cs) && (rest == "" || rest[0] != '[')
    decreases |s|
  {
    cs := [];
    if s != [] && s[0] == '[' {
      var c := CondDecodes(s[1..]);
      var more := CondsDecode(ParseCond(s[1..]).value.1);
      cs := [c] + more;
      assert cs[1..] == more && s == "[" + s[1..];
      CondsTextJoins(cs, ParseConds(s).value.1);
    } else {
      assert CondsText([]) + s == s;
    }
  }

  /** When they fail, it is in the first that is not complete. */
  lemma {:induction false} CondsFail(s: string, f: Failure) returns (cs: seq<CondText>, more: string)
    requires ParseConds(s) == Raised(f)
    ensures LegalConds(cs) && s == CondsText(cs) + ("[" + more) && BadCond(more, f)
    decreases |s|
  {
    var u := s[1..];
    assert s == "[" + u;
    CondStep(u);
    if ParseCond(u).Raised? {
      CondFailsExactly(u, f);
      cs, more := [], u;
      assert CondsText(cs) + s == s;
    } else {
      var c := CondDecodes(u);
      var front, last := CondsFail(ParseCond(u).value.1, f);
      cs, more := [c] + front, last;
      assert cs[1..] == front;
      CondsTextJoins(cs, "[" + more);
    }
  }

  // ----- names -----

  lemma PrefixedName(letter: char -> bool, e: Elem, rest: string)
    requires LegalName(letter, e) && e.prefix.Some? && (rest == "" || !NameChar(letter, rest[0]))
    ensures MatchName(letter, PrintName(e) + rest) == Some((e.prefix, e.name, rest))
  {
    var p, after := e.prefix.value, e.name + rest;
    var s := p + (":" + after);
    assert PrintName(e) + rest == s;
    NameRunIs(letter, e.name, rest);
    WordRunIs(letter, p, ":" + after);
    assert after[..|e.name|] == e.name && after[|e.name|..] == rest;
    assert s[|p|] == ':' && s[|p| + 1..] == after && s[..|p|] == p;
  }

  lemma PlainName(letter: char -> bool, e: Elem, rest: string)
    requires LegalName(letter, e) && e.prefix.None? && NameEnds(letter, e, rest)
    ensures MatchName(letter, PrintName(e) + rest) == Some((e.prefix, e.name, rest))
  {
    var s := e.name + rest;
    NameRunIs(letter, e.name, rest);
    assert s[..|e.name|] == e.name && s[|e.name|..] == rest;
    var w := WordRun(letter, s);
    assert w <= |e.name|;
    if w < |e.name| {
      assert s[w] == e.name[w] && e.name[w] in e.name;
    } else if w < |s| && s[w] == ':' {
      assert s[w + 1..] == rest[1..] && rest[0] == ':';
      forall c | c in e.name ensures Word(letter, c) {
        var k :| 0 <= k < |e.name| && e.name[k] == c;
        assert s[k] == c;
      }
      assert NameRun(letter, rest[1..]) == 0;
    }
  }

  lemma NameThen(letter: char -> bool, e: Elem, rest: string)
    requires LegalName(letter, e) && NameEnds(letter, e, rest)
    ensures MatchName(letter, PrintName(e) + rest) == Some((e.prefix, e.name, rest))
  {
    if e.prefix.Some? {
      PrefixedName(letter, e, rest);
    } else {
      PlainName(letter, e, rest);
    }
  }

  lemma PrefixDecodes(letter: char -> bool, s: string, w: nat, n: nat)
    requires w == WordRun(letter, s) && 0 < w < |s| && s[w] == ':' && n == NameRun(letter, s[w + 1..]) > 0
    ensures var after := s[w + 1..];
            var e := Elem(Some(s[..w]), after[..n], []);
            LegalName(letter, e) && s == PrintName(e) + after[n..] && NameEnds(letter, e, after[n..])
  {
    var p, after := s[..w], s[w + 1..];
    WordsIn(letter, s);
    NamesIn(letter, after);
    Parted(s, w);
    PrefixJoins(p, after, n);
  }

  lemma PrefixJoins(p: string, after: string, n: nat)
    requires n <= |after|
    ensures p + [':'] + after == p + ":" + after[..n] + after[n..]
  {
    assert after == after[..n] + after[n..];
  }

  lemma WordsIn(letter: char -> bool, s: string)
    ensures forall c :: c in s[..WordRun(letter, s)] ==> Word(letter, c)
  {
  }

  lemma NamesIn(letter: char -> bool, s: string)
    ensures forall c :: c in s[..NameRun(letter, s)] ==> NameChar(letter, c)
    ensures s[NameRun(letter, s)..] == "" || !NameChar(letter, s[NameRun(letter, s)..][0])
  {
  }

  lemma Parted(s: string, w: nat)
    requires w < |s|
    ensures s == s[..w] + [s[w]] + s[w + 1..]
  {
  }

  lemma PlainDecodes(letter: char -> bool, s: string, name: string, rest: string)
    requires s == name + rest && |name| == NameRun(letter, s) > 0
    requires var w := WordRun(letter, s); !(0 < w < |s| && s[w] == ':' && NameRun(letter, s[w + 1..]) > 0)
    ensures LegalName(letter, Elem(None, name, [])) && NameEnds(letter, Elem(None, name, []), rest)
  {
    assert forall k :: 0 <= k < |name| ==> name[k] == s[k];
    assert rest != "" ==> rest[0] == s[|name|];
    if (forall c :: c in name ==> Word(letter, c)) && |rest| > 1 && rest[0] == ':' {
      NoNameAfter(letter, s, name, rest);
    }
  }

  /** Had a name followed the colon, it would have been matched with a prefix. */
  lemma NoNameAfter(letter: char -> bool, s: string, name: string, rest: string)
    requires s == name + rest && name != "" && (forall c :: c in name ==> Word(letter, c)) && |rest| > 1 && rest[0] == ':'
    requires var w := WordRun(letter, s); !(0 < w < |s| && s[w] == ':' && NameRun(letter, s[w + 1..]) > 0)
    ensures !NameChar(letter, rest[1])
  {
    WordRunIs(letter, name, rest);
    assert s[|name| + 1..] == rest[1..];
    assert NameRun(letter, rest[1..]) == 0;
  }

  lemma NameDecodes(letter: char -> bool, s: string)
    requires MatchName(letter, s).Some?
    ensures var (prefix, name, rest) := MatchName(letter, s).value;
            var e := Elem(prefix, name, []);
            LegalName(letter, e) && s == PrintName(e) + rest && NameEnds(letter, e, rest)
  {
    var w := WordRun(letter, s);
    if 0 < w < |s| && s[w] == ':' && NameRun(letter, s[w + 1..]) > 0 {
      PrefixDecodes(letter, s, w, NameRun(letter, s[w + 1..]));
    } else {
      var n := NameRun(letter, s);
      assert s == s[..n] + s[n..];
      PlainDecodes(letter, s, s[..n], s[n..]);
    }
  }

  lemma NameMissing(letter: char -> bool, s: string)
    ensures MatchName(letter, s).None? <==> s == "" || !NameChar(letter, s[0])
  {
    var w := WordRun(letter, s);
  }

  // ----- elements -----

  lemma SlashSkipped(letter: char -> bool, e: ElemText, t: string)
    requires LegalName(letter, e.Head())
    ensures SkipSlash(e.Text() + t) == PrintName(e.Head()) + (CondsText(e.conds) + t)
  {
    var rest := PrintName(e.Head()) + (CondsText(e.conds) + t);
    TextJoins(e, t);
    if e.slash {
      assert ("/" + rest)[1..] == rest;
    } else {
      assert "" + rest == rest;
      NoSlashFirst(letter, e.Head(), CondsText(e.conds) + t);
    }
  }

  lemma NoSlashFirst(letter: char -> bool, e: Elem, t: string)
    requires LegalName(letter, e)
    ensures PrintName(e) + t != "" && (PrintName(e) + t)[0] != '/'
  {
    if e.prefix.Some? {
      assert (PrintName(e) + t)[0] == e.prefix.value[0] && e.prefix.value[0] in e.prefix.value;
    } else {
      assert (PrintName(e) + t)[0] == e.name[0] && e.name[0] in e.name;
    }
  }

  lemma TextJoins(e: ElemText, t: string)
    ensures e.Text() + t == (if e.slash then "/" else "") + (PrintName(e.Head()) + (CondsText(e.conds) + t))
  {
  }

  /** An element that is complete is parsed. */
  lemma ElemParses(letter: char -> bool, e: ElemText, rest: string)
    requires Complete(letter, e, rest)
    ensures ParseElem(letter, e.Text() + rest) == Ok((e.Meaning(), rest))
  {
    var s := e.Text() + rest;
    SlashSkipped(letter, e, rest);
    NameThen(letter, e.Head(), CondsText(e.conds) + rest);
    ElemStep(letter, s, e.prefix, e.name, CondsText(e.conds) + rest);
    CondsThen(e.conds, rest);
    assert Conds(e.conds) + [] == Conds(e.conds);
  }

  lemma SlashBack(s: string) returns (slash: bool)
    ensures s == (if slash then "/" else "") + SkipSlash(s)
  {
    slash := s != "" && s[0] == '/';
  }

  /** And only such an element is. */
  lemma ElemDecodes(letter: char -> bool, s: string) returns (e: ElemText)
    requires ParseElem(letter, s).Ok?
    ensures var (x, rest) := ParseElem(letter, s).value;
            s == e.Text() + rest && Complete(letter, e, rest) && x == e.Meaning()
  {
    var t := SkipSlash(s);
    var (prefix, name, more) := MatchName(letter, t).value;
    ElemStep(letter, s, prefix, name, more);
    NameDecodes(letter, t);
    var cs := CondsDecode(more);
    var slash := SlashBack(s);
    e := ElemText(slash, prefix, name, cs);
    TextJoins(e, ParseConds(more).value.1);
  }

  /** An element fails exactly when its name is missing or one of its conditions is bad. */
  lemma ElemFails(letter: char -> bool, s: string, f: Failure)
    requires ParseElem(letter, s) == Raised(f)
    ensures BadTail(letter, s, f)
  {
    var t := SkipSlash(s);
    NameMissing(letter, t);
    if MatchName(letter, t).Some? {
      var (prefix, name, rest) := MatchName(letter, t).value;
      ElemStep(letter, s, prefix, name, rest);
      var e, more := BadElemDecodes(letter, s, f, prefix, name, rest);
    }
  }

  lemma BadElemDecodes(letter: char -> bool, s: string, f: Failure, prefix: Option<string>, name: string, rest: string)
      returns (e: ElemText, more: string)
    requires MatchName(letter, SkipSlash(s)) == Some((prefix, name, rest)) && ParseConds(rest) == Raised(f)
    ensures BadElem(letter, s, e, more, f)
  {
    NameDecodes(letter, SkipSlash(s));
    var cs, last := CondsFail(rest, f);
    var slash := SlashBack(s);
    e, more := ElemText(slash, prefix, name, cs), last;
    TextJoins(e, "[" + more);
  }

  lemma BadFails(letter: char -> bool, s: string, f: Failure)
    requires BadTail(letter, s, f)
    ensures ParseElem(letter, s) == Raised(f)
  {
    NameMissing(letter, SkipSlash(s));
    if !(f == Panic && NoName(letter, s)) {
      var e, more :| BadElem(letter, s, e, more, f);
      BadElemFails(letter, s, e, more, f);
    }
  }

  lemma BadElemFails(letter: char -> bool, s: string, e: ElemText, more: string, f: Failure)
    requires BadElem(letter, s, e, more, f)
    ensures ParseElem(letter, s) == Raised(f)
  {
    var t := "[" + more;
    SlashSkipped(letter, e, t);
    NameThen(letter, e.Head(), CondsText(e.conds) + t);
    ElemStep(letter, s, e.prefix, e.name, CondsText(e.conds) + t);
    CondsThen(e.conds, t);
    CondFailsExactly(more, f);
    assert t[1..] == more;
  }

  // ----- paths -----

  /** Complete elements are parsed, and then the tail. */
  lemma {:induction false} ElemsThen(letter: char -> bool, es: seq<ElemText>, tail: string)
    requires Chain(letter, es, tail) && tail != ""
    ensures ParseElems(letter, Texts(es) + tail) == Onto(Meanings(es), ParseElems(letter, tail))
  {
    if es == [] {
      assert Texts(es) + tail == tail;
      OntoNone(ParseElems(letter, tail));
    } else {
      var rest := Texts(es[1..]) + tail;
      assert Texts(es) + tail == es[0].Text() + rest;
      ElemParses(letter, es[0], rest);
      StepOf(letter, es[0].Text() + rest, Ok((es[0].Meaning(), rest)));
      ElemsThen(letter, es[1..], tail);
      OntoTwice([es[0].Meaning()], Meanings(es[1..]), ParseElems(letter, tail));
    }
  }

  lemma OntoTwice(a: seq<Elem>, b: seq<Elem>, r: Result<seq<Elem>, Failure>)
    ensures Onto(a, Onto(b, r)) == Onto(a + b, r)
  {
    if r.Ok? {
      assert a + (b + r.value) == (a + b) + r.value;
    }
  }

  lemma {:induction false} ElemsWhole(letter: char -> bool, es: seq<ElemText>)
    requires Chain(letter, es, "") && es != []
    ensures ParseElems(letter, Texts(es)) == Ok(Meanings(es))
  {
    var rest := Texts(es[1..]) + "";
    assert rest == Texts(es[1..]) && Texts(es) == es[0].Text() + rest;
    ElemParses(letter, es[0], rest);
    StepOf(letter, es[0].Text() + rest, Ok((es[0].Meaning(), rest)));
    if es[1..] == [] {
      assert Meanings(es) == [es[0].Meaning()];
    } else {
      ElemsWhole(letter, es[1..]);
      TextNotEmpty(letter, es[1]);
      assert Texts(es[1..]) == es[1].Text() + Texts(es[2..]);
    }
  }

  lemma TextNotEmpty(letter: char -> bool, e: ElemText)
    requires LegalName(letter, e.Head())
    ensures e.Text() != ""
  {
    assert PrintName(e.Head()) != "";
  }

  /** A parsed path is a chain of complete elements. */
  lemma {:induction false} ElemsDecode(letter: char -> bool, s: string) returns (es: seq<ElemText>)
    requires ParseElems(letter, s).Ok?
    ensures es != [] && s == Texts(es) && Chain(letter, es, "") && ParseElems(letter, s).value == Meanings(es)
    decreases |s|
  {
    var first := ParseElem(letter, s);
    StepOf(letter, s, first);
    var e := ElemDecodes(letter, s);
    var rest := first.value.1;
    if rest == [] {
      es := [e];
      assert Texts(es[1..]) + "" == "";
    } else {
      es := ElemsDecode(letter, rest);
      ChainLonger(letter, s, e, rest, es);
      es := [e] + es;
    }
  }

  lemma ChainLonger(letter: char -> bool, s: string, e: ElemText, rest: string, es: seq<ElemText>)
    requires s == e.Text() + rest && Complete(letter, e, rest) && rest == Texts(es) && Chain(letter, es, "")
    ensures s == Texts([e] + es) && Chain(letter, [e] + es, "") && Meanings([e] + es) == [e.Meaning()] + Meanings(es)
  {
    assert ([e] + es)[1..] == es && Texts(es) + "" == rest;
  }

  lemma TextsJoin(es: seq<ElemText>, tail: string)
    requires es != []
    ensures Texts(es) + tail == es[0].Text() + (Texts(es[1..]) + tail)
  {
    Regrouped(es[0].Text(), Texts(es[1..]), tail);
  }

  lemma Regrouped(a: string, b: string, c: string)
    ensures (a + b) + c == a + (b + c)
  {
  }

  /** And a path that fails is one with a bad tail. */
  lemma {:induction false} ElemsFail(letter: char -> bool, s: string, f: Failure) returns (es: seq<ElemText>, tail: string)
    requires ParseElems(letter, s) == Raised(f) && s != ""
    ensures FailsAt(letter, s, es, tail, f)
    decreases |s|
  {
    var first := ParseElem(letter, s);
    StepOf(letter, s, first);
    if first.Raised? {
      ElemFails(letter, s, f);
      es, tail := [], s;
      assert Texts([]) + s == s;
    } else {
      var e := ElemDecodes(letter, s);
      es, tail := ElemsFail(letter, first.value.1, f);
      FailsLater(letter, s, e, first.value.1, es, tail, f);
      es := [e] + es;
    }
  }

  lemma FailsLater(letter: char -> bool, s: string, e: ElemText, rest: string, es: seq<ElemText>, tail: string, f: Failure)
    requires s == e.Text() + rest && Complete(letter, e, rest) && FailsAt(letter, rest, es, tail, f)
    ensures FailsAt(letter, s, [e] + es, tail, f)
  {
    assert ([e] + es)[1..] == es;
    TextsJoin([e] + es, tail);
  }

  /** `s` is complete elements followed by `tail`, which fails as `f`. */
  ghost predicate FailsAt(letter: char -> bool, s: string, es: seq<ElemText>, tail: string, f: Failure) {
    s == Texts(es) + tail && tail != "" && Chain(letter, es, tail) && BadTail(letter, tail, f)
  }

  /**
   How each path fails, told from its text: it is complete elements followed by one whose name is missing or
   whose next condition is bad. In particular it panics exactly when that element has no name, or a
   condition of its with no one-byte character where the quote or the closing bracket should be.
   */
  lemma FailsExactly(letter: char -> bool, s: string, f: Failure)
    ensures Parse(letter, s) == Raised(f)
            <==> if s == "" then f == EmptyPath else exists es, tail :: FailsAt(letter, s, es, tail, f)
  {
    if s != "" {
      if Parse(letter, s) == Raised(f) {
        var es, tail := ElemsFail(letter, s, f);
      }
      if es, tail :| FailsAt(letter, s, es, tail, f) {
        ElemsThen(letter, es, tail);
        BadFails(letter, tail, f);
        StepOf(letter, tail, ParseElem(letter, tail));
      }
    }
  }

  /** And a path parses exactly when it is complete elements throughout, to what they say. */
  lemma ParsesExactly(letter: char -> bool, s: string, xs: seq<Elem>)
    ensures Parse(letter, s) == Ok(xs)
            <==> exists es :: es != [] && s == Texts(es) && Chain(letter, es, "") && xs == Meanings(es)
  {
    if Parse(letter, s) == Ok(xs) {
      var es := ElemsDecode(letter, s);
    }
    if es :| es != [] && s == Texts(es) && Chain(letter, es, "") && xs == Meanings(es) {
      ElemsWhole(letter, es);
      TextNotEmpty(letter, es[0]);
    }
  }

  // ----- parsing what was printed -----

  function QuotedConds(cs: seq<Cond>, quote: char): seq<CondText> {
    if cs == [] then [] else [CondText(cs[0].key, quote, cs[0].value, ']')] + QuotedConds(cs[1..], quote)
  }

  /** The texts that a list of elements is printed as. */
  function Printed(es: seq<Elem>, quote: char): seq<ElemText> {
    if es == [] then []
    else [ElemText(true, es[0].prefix, es[0].name, QuotedConds(es[0].conds, quote))] + Printed(es[1..], quote)
  }

  lemma {:induction false} QuotedText(cs: seq<Cond>, quote: char)
    ensures CondsText(QuotedConds(cs, quote)) == PrintConds(cs, quote) && Conds(QuotedConds(cs, quote)) == cs
  {
    if cs != [] {
      QuotedText(cs[1..], quote);
      assert QuotedConds(cs, quote)[1..] == QuotedConds(cs[1..], quote);
      assert cs == [cs[0]] + cs[1..];
    }
  }

  lemma {:induction false} QuotedLegal(cs: seq<Cond>, quote: char)
    requires LegalKeys(cs) && Unquoted(cs, quote) && Ascii(quote)
    ensures LegalConds(QuotedConds(cs, quote))
  {
    if cs != [] {
      assert cs[0] in cs;
      QuotedLegal(cs[1..], quote);
    }
  }

  lemma {:induction false} PrintedText(es: seq<Elem>, quote: char)
    ensures Texts(Printed(es, quote)) == Print(es, quote) && Meanings(Printed(es, quote)) == es
  {
    if es != [] {
      QuotedText(es[0].conds, quote);
      PrintedText(es[1..], quote);
      assert Printed(es, quote)[1..] == Printed(es[1..], quote);
      assert es == [es[0]] + es[1..];
    }
  }

  lemma {:induction false} PrintedChain(letter: char -> bool, es: seq<Elem>, quote: char)
    requires Legal(letter, es) && AllUnquoted(es, quote) && Ascii(quote)
    ensures Chain(letter, Printed(es, quote), "")
  {
    if es != [] {
      assert es[0] in es;
      PrintedChain(letter, es[1..], quote);
      PrintedText(es[1..], quote);
      PrintedComplete(letter, es[0], quote, Print(es[1..], quote));
      ChainFirst(letter, ElemText(true, es[0].prefix, es[0].name, QuotedConds(es[0].conds, quote)), Printed(es[1..], quote));
    }
  }

  lemma ChainFirst(letter: char -> bool, e: ElemText, es: seq<ElemText>)
    requires Complete(letter, e, Texts(es)) && Chain(letter, es, "")
    ensures Chain(letter, [e] + es, "")
  {
    assert ([e] + es)[1..] == es && Texts(es) + "" == Texts(es);
  }

  lemma PrintedComplete(letter: char -> bool, e: Elem, quote: char, rest: string)
    requires LegalName(letter, e) && LegalKeys(e.conds) && Unquoted(e.conds, quote) && Ascii(quote)
    requires rest == "" || rest[0] == '/'
    ensures Complete(letter, ElemText(true, e.prefix, e.name, QuotedConds(e.conds, quote)), rest)
  {
    QuotedLegal(e.conds, quote);
    QuotedText(e.conds, quote);
    AfterName(e.conds, quote, rest);
  }

  lemma AfterName(cs: seq<Cond>, quote: char, rest: string)
    requires rest == "" || rest[0] == '/'
    ensures var after := PrintConds(cs, quote) + rest; after == "" || after[0] == '/' || after[0] == '['
  {
    if cs != [] {
      assert PrintCond(cs[0], quote)[0] == '[';
    } else {
      assert PrintConds(cs, quote) + rest == rest;
    }
  }

  lemma CondPrints(c: Cond, quote: char, rest: string)
    ensures (PrintCond(c, quote) + rest)[1..] == CondText(c.key, quote, c.value, ']').Inner() + rest
  {
  }

  /** The value that is parsed does not hold the character that quotes it. */
  lemma NoQuoteInside(t: string, c: Cond)
    requires ParseCond(t).Ok? && ParseCond(t).value.0 == c
    ensures |t| > |c.key| + 1 && t[|c.key| + 1] !in c.value
  {
    var text := CondDecodes(t);
    assert (text.Inner() + ParseCond(t).value.1)[|c.key| + 1] == text.quote;
  }

  /** A printed condition comes back when its value has no quote character, and never otherwise. */
  lemma CondBack(c: Cond, quote: char, rest: string)
    requires '=' !in c.key && Ascii(quote)
    ensures var r := ParseCond((PrintCond(c, quote) + rest)[1..]);
            if quote !in c.value then r == Ok((c, rest)) else r.Ok? ==> r.value.0 != c
  {
    var t := (PrintCond(c, quote) + rest)[1..];
    CondPrints(c, quote, rest);
    if quote !in c.value {
      CondParses(CondText(c.key, quote, c.value, ']'), rest);
    }
    if ParseCond(t).Ok? && ParseCond(t).value.0 == c {
      NoQuoteInside(t, c);
      assert t[|c.key| + 1] == quote;
    }
  }

  /** So do the conditions of an element; if one does not, what is parsed does not even begin like them. */
  lemma CondsBack(cs: seq<Cond>, quote: char, rest: string)
    requires LegalKeys(cs) && Ascii(quote) && (rest == [] || rest[0] == '/')
    ensures var r := ParseConds(PrintConds(cs, quote) + rest);
            if Unquoted(cs, quote) then r == Ok((cs, rest)) else r.Ok? ==> r.value.0 != cs
  {
    if Unquoted(cs, quote) {
      QuotedText(cs, quote);
      QuotedLegal(cs, quote);
      CondsThen(QuotedConds(cs, quote), rest);
      assert cs + [] == cs;
    } else {
      CondsDiffer(cs, quote, rest);
    }
  }

  lemma {:induction false} CondsDiffer(cs: seq<Cond>, quote: char, rest: string)
    requires LegalKeys(cs) && Ascii(quote) && !Unquoted(cs, quote)
    ensures var r := ParseConds(PrintConds(cs, quote) + rest); r.Ok? ==> r.value.0 != cs
    decreases |cs|
  {
    var more := PrintConds(cs[1..], quote) + rest;
    assert cs == [cs[0]] + cs[1..] && cs[0] in cs;
    assert PrintConds(cs, quote) + rest == PrintCond(cs[0], quote) + more;
    CondBack(cs[0], quote, more);
    if quote !in cs[0].value {
      CondsDiffer(cs[1..], quote, rest);
    }
  }

  lemma NameBack(letter: char -> bool, e: Elem, rest: string)
    requires LegalName(letter, e) && (rest == [] || rest[0] == '/' || rest[0] == '[')
    ensures MatchName(letter, PrintName(e) + rest) == Some((e.prefix, e.name, rest))
  {
    NameThen(letter, e, rest);
  }

  lemma ElemBack(letter: char -> bool, e: Elem, quote: char, rest: string)
    requires LegalName(letter, e) && LegalKeys(e.conds) && Ascii(quote) && (rest == [] || rest[0] == '/')
    ensures var r := ParseElem(letter, "/" + PrintName(e) + PrintConds(e.conds, quote) + rest);
            if Unquoted(e.conds, quote) then r == Ok((e, rest)) else r.Ok? ==> r.value.0 != e
  {
    var s := "/" + PrintName(e) + PrintConds(e.conds, quote) + rest;
    var more := PrintConds(e.conds, quote) + rest;
    assert SkipSlash(s) == PrintName(e) + more;
    NameBack(letter, e, more);
    ElemStep(letter, s, e.prefix, e.name, more);
    CondsBack(e.conds, quote, rest);
  }

  /** Putting an element before a list of others gives `es` only from its own first and its own rest. */
  lemma Combined(es: seq<Elem>, first: Parsed<Elem>, more: Result<seq<Elem>, Failure>, all: Result<seq<Elem>, Failure>)
    requires es != []
    requires all == if first.Raised? then Raised(first.error)
                    else if first.value.1 == [] then Ok([first.value.0]) else Onto([first.value.0], more)
    ensures all == Ok(es)
            <==> first.Ok? && first.value.0 == es[0]
                 && if first.value.1 == [] then es[1..] == [] else more == Ok(es[1..])
  {
    assert es == [es[0]] + es[1..];
    assert es[1..] == [] ==> es == [es[0]];
    if first.Ok? && more.Ok? {
      var e := first.value.0;
      assert ([e] + more.value)[0] == e && ([e] + more.value)[1..] == more.value;
    }
  }

  lemma ElemsBack(letter: char -> bool, es: seq<Elem>, quote: char)
    requires Legal(letter, es) && es != [] && Ascii(quote)
    ensures ParseElems(letter, Print(es, quote)) == Ok(es) <==> AllUnquoted(es, quote)
  {
    if AllUnquoted(es, quote) {
      PrintedChain(letter, es, quote);
      PrintedText(es, quote);
      ElemsWhole(letter, Printed(es, quote));
    } else {
      ElemsDiffer(letter, es, quote);
    }
  }

  lemma {:induction false} ElemsDiffer(letter: char -> bool, es: seq<Elem>, quote: char)
    requires Legal(letter, es) && es != [] && Ascii(quote) && !AllUnquoted(es, quote)
    ensures ParseElems(letter, Print(es, quote)) != Ok(es)
    decreases |es|
  {
    var e, rest := es[0], Print(es[1..], quote);
    assert e in es && es == [e] + es[1..];
    var s := "/" + PrintName(e) + PrintConds(e.conds, quote) + rest;
    assert Print(es, quote) == s;
    ElemBack(letter, e, quote, rest);
    var first := ParseElem(letter, s);
    StepOf(letter, s, first);
    var more := if first.Ok? && first.value.1 != [] then ParseElems(letter, first.value.1) else Ok([]);
    Combined(es, first, more, ParseElems(letter, s));
    AllUnquotedSplit(es, quote);
    if Unquoted(e.conds, quote) {
      ElemsDiffer(letter, es[1..], quote);
    }
  }

  lemma AllUnquotedSplit(es: seq<Elem>, quote: char)
    requires es != []
    ensures AllUnquoted(es, quote) <==> Unquoted(es[0].conds, quote) && AllUnquoted(es[1..], quote)
  {
    assert es == [es[0]] + es[1..];
  }

  /**
   `xpath_split` gives back a printed list of elements exactly when there is one to give, its names and keys
   are legal, and no value holds the quote character; slashes and brackets in values do no harm.
   */
  lemma ParsePrintExactly(letter: char -> bool, es: seq<Elem>, quote: char)
    requires Ascii(quote)
    ensures Parse(letter, Print(es, quote)) == Ok(es)
            <==> es != [] && Legal(letter, es) && AllUnquoted(es, quote)
  {
    if es != [] {
      ParsedElems(letter, Print(es, quote));
      if Legal(letter, es) {
        ElemsBack(letter, es, quote);
      }
    }
  }

  /** Whatever parses can be printed and parsed again, as long as the values leave a quote to print them with. */
  lemma ParsePrintParse(letter: char -> bool, s: string, quote: char)
    requires Ascii(quote) && Parse(letter, s).Ok?
    requires AllUnquoted(Parse(letter, s).value, quote)
    ensures Parse(letter, Print(Parse(letter, s).value, quote)) == Parse(letter, s)
  {
    ParsedElems(letter, s);
    ParsePrintExactly(letter, Parse(letter, s).value, quote);
  }
}
