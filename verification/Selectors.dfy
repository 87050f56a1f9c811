/**
  Path selectors of the architecture rules: the parser and the prefix-range lookup.
  `relative` stands for `ev.relative_path`.
 */
module Selectors {
  import opened Wrappers
  import opened Ordering

  const MAX_SELECTOR_CHARS := 512
  const FORBIDDEN_CHARS: set<char> := {'*', '?', '[', ']', '{', '}', '!', '\\'}

  datatype Kind = All | Tree | Children | Literal
  datatype Selector = Selector(kind: Kind, base: string, text: string)

  // ----- splitting at '/'

  function Split(text: string): (segments: seq<string>)
    ensures segments != []
  {
    if text == [] then [[]]
    else
      var rest := Split(text[1..]);
      if text[0] == '/' then [[]] + rest else [[text[0]] + rest[0]] + rest[1..]
  }

  function Join(segments: seq<string>): string
    requires segments != []
  {
    if |segments| == 1 then segments[0] else segments[0] + "/" + Join(segments[1..])
  }

  lemma {:induction false} JoinSplit(text: string)
    ensures Join(Split(text)) == text
  {
    if text != [] {
      var (c, rest) := (text[0], Split(text[1..]));
      JoinSplit(text[1..]);
      assert text == [c] + text[1..];
      if c == '/' {
        assert ([[]] + rest)[1..] == rest;
      } else {
        JoinPrepended(c, rest);
      }
    }
  }

  lemma JoinPrepended(c: char, segments: seq<string>)
    requires segments != []
    ensures Join([[c] + segments[0]] + segments[1..]) == [c] + Join(segments)
  {
    var longer := [[c] + segments[0]] + segments[1..];
    if |segments| > 1 {
      assert longer[1..] == segments[1..];
      assert [c] + segments[0] + "/" + Join(segments[1..]) == [c] + (segments[0] + "/" + Join(segments[1..]));
    }
  }

  lemma {:induction false} SplitAppend(head: string, last: string)
    requires '/' !in last
    ensures Split(last) == [last]
    ensures Split(head + "/" + last) == Split(head) + [last]
  {
    SplitPlain(last);
    if head == [] {
      assert ("/" + last)[1..] == last;
      assert head + "/" + last == "/" + last;
    } else {
      SplitAppend(head[1..], last);
      assert (head + "/" + last)[1..] == head[1..] + "/" + last;
    }
  }

  lemma {:induction false} SplitPlain(last: string)
    requires '/' !in last
    ensures Split(last) == [last]
  {
    if last != [] {
      SplitPlain(last[1..]);
      assert last[0] in last && last == [last[0]] + last[1..];
    }
  }

  lemma {:induction false} JoinAppend(head: seq<string>, last: string)
    requires head != []
    ensures Join(head + [last]) == Join(head) + "/" + last
  {
    if |head| == 1 {
      assert (head + [last])[1..] == [last];
    } else {
      JoinAppend(head[1..], last);
      assert (head + [last])[1..] == head[1..] + [last];
    }
  }

  /** No segment contains the separator, so splitting a joined list gives the list back. */
  lemma {:induction false} SplitJoin(segments: seq<string>)
    requires segments != [] && forall s :: s in segments ==> '/' !in s
    ensures Split(Join(segments)) == segments
    decreases |segments|
  {
    var n := |segments| - 1;
    if n == 0 {
      SplitPlain(segments[0]);
    } else {
      SplitJoin(segments[..n]);
      JoinAppend(segments[..n], segments[n]);
      SplitAppend(Join(segments[..n]), segments[n]);
      assert segments[..n] + [segments[n]] == segments;
    }
  }

  lemma {:induction false} SplitSegmentsPlain(text: string)
    ensures forall s :: s in Split(text) ==> '/' !in s
  {
    if text != [] { SplitSegmentsPlain(text[1..]); }
  }

  // ----- the parser

  predicate SegmentOk(segment: string) {
    && segment != []
    && segment != "." && segment != ".."
    && forall c :: c in segment ==> c !in FORBIDDEN_CHARS && c >= ' ' && c != '\U{007F}'
  }

  function ParseSelector(text: string, relative: string -> bool): Result<Selector, ()> {
    if text == [] || |text| > MAX_SELECTOR_CHARS then Err(())
    else if text == "**" then Ok(Selector(All, "", text))
    else ParseSegments(text, Split(text), relative)
  }

  function ParseSegments(text: string, segments: seq<string>, relative: string -> bool): Result<Selector, ()>
    requires segments != []
  {
    var (head, last) := (segments[..|segments| - 1], segments[|segments| - 1]);
    if !(forall s :: s in head ==> SegmentOk(s)) then Err(())
    else if last != "**" && last != "*" && !SegmentOk(last) then Err(())
    else
      var kind := if last == "**" then Tree else if last == "*" then Children else Literal;
      if kind != Literal && head == [] then Err(())
      else
        var base := if kind == Literal then text else Join(head);
        if relative(base) then Ok(Selector(kind, base, text)) else Err(())
  }

  function PrintSelector(kind: Kind, base: string): string {
    match kind
    case All => "**"
    case Tree => base + "/**"
    case Children => base + "/*"
    case Literal => base
  }

  /** The kind and base pairs that a selector can denote. */
  ghost predicate WellFormed(kind: Kind, base: string, relative: string -> bool) {
    && |PrintSelector(kind, base)| <= MAX_SELECTOR_CHARS
    && if kind == All then base == ""
       else relative(base) && forall s :: s in Split(base) ==> SegmentOk(s)
  }

  lemma StarsNotOk()
    ensures !SegmentOk("*") && !SegmentOk("**") && !SegmentOk("")
  {
    assert "*"[0] in "*" && "**"[0] in "**";
  }

  /** Printing what was parsed gives the text back, and the selector is well formed. */
  lemma ParsedPrints(text: string, relative: string -> bool)
    requires ParseSelector(text, relative).Ok?
    ensures var s := ParseSelector(text, relative).value;
            s.text == text && PrintSelector(s.kind, s.base) == text && WellFormed(s.kind, s.base, relative)
  {
    hide Split, Join, SegmentOk;
    if text != "**" {
      var segments := Split(text);
      var n := |segments| - 1;
      var (head, last) := (segments[..n], segments[n]);
      assert segments == head + [last];
      JoinSplit(text);
      SplitSegmentsPlain(text);
      if head != [] {
        JoinAppend(head, last);
        OkIsPlain(segments, head);
        SplitJoin(head);
        assert Join(head) + "/" + "*" == Join(head) + "/*" && Join(head) + "/" + "**" == Join(head) + "/**";
      } else {
        OneSegment(last);
      }
    }
  }

  lemma OkIsPlain(segments: seq<string>, head: seq<string>)
    requires head <= segments && forall s :: s in segments ==> '/' !in s
    ensures forall s :: s in head ==> '/' !in s
  {}

  lemma OneSegment(last: string)
    ensures Join([last]) == last
  {}

  lemma LiteralParses(base: string, relative: string -> bool)
    requires WellFormed(Literal, base, relative)
    ensures ParseSelector(base, relative) == Ok(Selector(Literal, base, base))
  {
    StarsNotOk();
    var segments := Split(base);
    var n := |segments| - 1;
    assert SegmentOk(segments[n]) && SegmentOk(segments[0]);
    assert base != "";
    if base == "**" { SplitPlain(base); }
    assert base != "**";
  }

  lemma HeadParses(kind: Kind, text: string, head: seq<string>, last: string, relative: string -> bool)
    requires (kind == Tree && last == "**") || (kind == Children && last == "*")
    requires head != [] && (forall s :: s in head ==> SegmentOk(s)) && relative(Join(head))
    ensures ParseSegments(text, head + [last], relative) == Ok(Selector(kind, Join(head), text))
  {
    assert (head + [last])[..|head|] == head;
  }

  lemma StarredParses(kind: Kind, base: string, last: string, relative: string -> bool)
    requires (kind == Tree && last == "**") || (kind == Children && last == "*")
    requires WellFormed(kind, base, relative)
    ensures ParseSelector(base + "/" + last, relative) == Ok(Selector(kind, base, base + "/" + last))
  {
    StarsNotOk();
    var text := base + "/" + last;
    var segments := Split(base);
    SplitAppend(base, last);
    JoinSplit(base);
    HeadParses(kind, text, segments, last, relative);
    assert text[|base|] == '/';
  }

  /** Every well-formed kind and base is parsed back from its printed text. */
  lemma PrintedParses(kind: Kind, base: string, relative: string -> bool)
    requires WellFormed(kind, base, relative)
    ensures ParseSelector(PrintSelector(kind, base), relative) == Ok(Selector(kind, base, PrintSelector(kind, base)))
  {
    match kind
    case All =>
    case Literal => LiteralParses(base, relative);
    case Tree =>
      StarredParses(kind, base, "**", relative);
      assert base + "/" + "**" == base + "/**";
    case Children =>
      StarredParses(kind, base, "*", relative);
      assert base + "/" + "*" == base + "/*";
  }

  // ----- matching a universe of paths

  predicate Matches(selector: Selector, path: string) {
    var prefix := selector.base + "/";
    match selector.kind
    case All => true
    case Literal => path == selector.base
    case Tree => prefix <= path
    case Children => prefix <= path && '/' !in path[|prefix|..]
  }

  /** The ascending list of matching paths. */
  function Filter(universe: seq<string>, selector: Selector): (r: seq<string>)
    ensures forall p :: p in r <==> p in universe && Matches(selector, p)
  {
    if universe == [] then []
    else
      var n := |universe| - 1;
      Filter(universe[..n], selector) + if Matches(selector, universe[n]) then [universe[n]] else []
  }

  lemma {:induction false} FilterNone(universe: seq<string>, selector: Selector, k: nat)
    requires k <= |universe|
    requires forall i :: k <= i < |universe| ==> !Matches(selector, universe[i])
    ensures Filter(universe, selector) == Filter(universe[..k], selector)
    decreases |universe|
  {
    if k < |universe| {
      var n := |universe| - 1;
      FilterNone(universe[..n], selector, k);
      assert universe[..n][..k] == universe[..k];
    } else {
      assert universe[..k] == universe;
    }
  }

  /** `bisect_left`. */
  method BisectLeft(universe: seq<string>, x: string) returns (at: nat)
    requires Ascending(universe, StringLess)
    ensures at <= |universe|
    ensures forall i :: 0 <= i < at ==> StringLess(universe[i], x)
    ensures forall i :: at <= i < |universe| ==> !StringLess(universe[i], x)
  {
    StringOrder();
    var hi := |universe|;
    at := 0;
    while at < hi
      invariant 0 <= at <= hi <= |universe|
      invariant forall i :: 0 <= i < at ==> StringLess(universe[i], x)
      invariant forall i :: hi <= i < |universe| ==> !StringLess(universe[i], x)
    {
      var mid := (at + hi) / 2;
      if StringLess(universe[mid], x) {
        at := mid + 1;
      } else {
        hi := mid;
      }
    }
  }

  lemma {:induction false} PrefixNotLess(path: string, prefix: string)
    requires prefix <= path
    ensures !StringLess(path, prefix)
  {
    if prefix != [] { PrefixNotLess(path[1..], prefix[1..]); }
  }

  /** Paths sharing a prefix form one block: past the first path without it, none has it. */
  lemma {:induction false} BlockEnds(prefix: string, p: string, q: string)
    requires !StringLess(p, prefix) && !(prefix <= p) && StringLess(p, q)
    ensures !(prefix <= q)
  {
    if prefix != [] && p != [] && q != [] && p[0] == prefix[0] == q[0] {
      assert !(prefix[1..] <= p[1..]);
      BlockEnds(prefix[1..], p[1..], q[1..]);
    }
  }

  /** The literal case: one exact lookup. */
  method SelectLiteral(universe: seq<string>, selector: Selector) returns (found: seq<string>)
    requires Ascending(universe, StringLess) && selector.kind == Literal
    ensures found == Filter(universe, selector)
  {
    StringOrder();
    var at := BisectLeft(universe, selector.base);
    FilterNone(universe[..at], selector, 0);
    assert universe[..at][..0] == [];
    if at < |universe| && universe[at] == selector.base {
      found := [selector.base];
      FilterNone(universe, selector, at + 1);
      assert universe[..at + 1][..at] == universe[..at];
    } else {
      found := [];
      FilterNone(universe, selector, at);
    }
  }

  /** Before the bisection point no path has the prefix. */
  lemma BeforePrefix(universe: seq<string>, selector: Selector, at: nat)
    requires at <= |universe| && (selector.kind == Tree || selector.kind == Children)
    requires forall i :: 0 <= i < at ==> StringLess(universe[i], selector.base + "/")
    ensures Filter(universe[..at], selector) == []
  {
    forall i | 0 <= i < at ensures !Matches(selector, universe[i]) {
      if selector.base + "/" <= universe[i] { PrefixNotLess(universe[i], selector.base + "/"); }
    }
    FilterNone(universe[..at], selector, 0);
    assert universe[..at][..0] == [];
  }

  /** Once a path at or after the prefix lacks it, nothing later matches. */
  lemma AfterPrefix(universe: seq<string>, selector: Selector, at: nat)
    requires Ascending(universe, StringLess) && (selector.kind == Tree || selector.kind == Children)
    requires at < |universe| && !StringLess(universe[at], selector.base + "/") && !(selector.base + "/" <= universe[at])
    ensures Filter(universe, selector) == Filter(universe[..at], selector)
  {
    forall i | at <= i < |universe| ensures !Matches(selector, universe[i]) {
      if at < i { BlockEnds(selector.base + "/", universe[at], universe[i]); }
    }
    FilterNone(universe, selector, at);
  }

  /** The prefix range: from the bisection point while the prefix lasts. */
  method SelectRange(universe: seq<string>, selector: Selector) returns (found: seq<string>)
    requires Ascending(universe, StringLess) && (selector.kind == Tree || selector.kind == Children)
    ensures found == Filter(universe, selector)
  {
    hide Ascending, StringLess, Filter;
    var prefix := selector.base + "/";
    var start := BisectLeft(universe, prefix);
    BeforePrefix(universe, selector, start);
    found := [];
    for at := start to |universe|
      invariant found == Filter(universe[..at], selector)
    {
      var path := universe[at];
      FilterStep(universe, selector, at);
      if !(prefix <= path) {
        AfterPrefix(universe, selector, at);
        return;
      }
      if selector.kind == Tree || '/' !in path[|prefix|..] {
        found := found + [path];
      }
    }
    assert universe[..|universe|] == universe;
  }

  lemma FilterStep(universe: seq<string>, selector: Selector, at: nat)
    requires at < |universe|
    ensures Filter(universe[..at + 1], selector)
         == Filter(universe[..at], selector) + if Matches(selector, universe[at]) then [universe[at]] else []
  {
    hide Matches;
    assert universe[..at + 1][..at] == universe[..at];
  }

  method Select(universe: seq<string>, selector: Selector) returns (found: seq<string>)
    requires Ascending(universe, StringLess)
    ensures found == Filter(universe, selector)
  {
    match selector.kind
    case All =>
      FilterAll(universe, selector);
      found := universe;
    case Literal => found := SelectLiteral(universe, selector);
    case _ => found := SelectRange(universe, selector);
  }

  lemma {:induction false} FilterAll(universe: seq<string>, selector: Selector)
    requires selector.kind == All
    ensures Filter(universe, selector) == universe
  {
    if universe != [] { FilterAll(universe[..|universe| - 1], selector); }
  }

  // ----- which texts are selectors, and what they match, by segments

  /** A path segment that is a plain name. */
  ghost predicate PlainName(segment: string) {
    && |segment| > 0 && segment != "." && segment != ".."
    && forall i :: 0 <= i < |segment| ==>
         && 32 <= segment[i] as int && segment[i] as int != 127
         && segment[i] !in ['*', '?', '[', ']', '{', '}', '!', '\\']
  }

  lemma PlainNameIs(segment: string)
    ensures PlainName(segment) <==> SegmentOk(segment)
  {
    assert forall i :: 0 <= i < |segment| ==> segment[i] in segment;
  }

  /** What a text is parsed as, if at all: two stars; a plain path; or a plain path and a last segment of two stars or one. */
  ghost predicate Denotes(text: string, relative: string -> bool, kind: Kind) {
    var (segments, n) := (Split(text), |Split(text)| - 1);
    && 1 <= |text| <= 512
    && match kind
       case All => text == "**"
       case Literal => (forall i :: 0 <= i <= n ==> PlainName(segments[i])) && relative(text)
       case Tree => n > 0 && segments[n] == "**" && (forall i :: 0 <= i < n ==> PlainName(segments[i])) && relative(Join(segments[..n]))
       case Children => n > 0 && segments[n] == "*" && (forall i :: 0 <= i < n ==> PlainName(segments[i])) && relative(Join(segments[..n]))
  }

  lemma ParseMeans(text: string, relative: string -> bool, kind: Kind)
    ensures var r := ParseSelector(text, relative);
            r.Ok? && r.value.kind == kind <==> Denotes(text, relative, kind)
  {
    hide SegmentOk, PlainName, Split, Join;
    StarsNotOk();
    var (segments, n) := (Split(text), |Split(text)| - 1);
    forall s ensures PlainName(s) <==> SegmentOk(s) { PlainNameIs(s); }
    assert forall i :: 0 <= i < n ==> segments[..n][i] == segments[i];
    assert (forall s :: s in segments[..n] ==> SegmentOk(s)) <==> forall i :: 0 <= i < n ==> PlainName(segments[i]) by {
      if forall s :: s in segments[..n] ==> SegmentOk(s) {
        forall i | 0 <= i < n ensures PlainName(segments[i]) { assert segments[..n][i] in segments[..n]; }
      }
    }
    DoubleStar();
  }

  lemma DoubleStar()
    ensures Split("**") == ["**"]
  {
    SplitPlain("**");
  }

  function Prepend(c: char, segments: seq<string>): seq<string>
    requires segments != []
  {
    if c == '/' then [[]] + segments else [[c] + segments[0]] + segments[1..]
  }

  lemma SplitStep(c: char, rest: string)
    ensures Split([c] + rest) == Prepend(c, Split(rest))
  {
    assert ([c] + rest)[1..] == rest;
  }

  lemma PrependBoth(c: char, a: seq<string>, b: seq<string>)
    requires a != []
    ensures Prepend(c, a + b) == Prepend(c, a) + b
  {
    assert (a + b)[0] == a[0] && (a + b)[1..] == a[1..] + b;
  }

  lemma {:induction false} SplitAround(head: string, rest: string)
    ensures Split(head + "/" + rest) == Split(head) + Split(rest)
  {
    if head == [] {
      SplitStep('/', rest);
      assert head + "/" + rest == ['/'] + rest && Split(head) == [[]];
    } else {
      var (c, tail) := (head[0], head[1..]);
      hide Split, Prepend;
      SplitAround(tail, rest);
      SplitStep(c, tail);
      SplitStep(c, tail + "/" + rest);
      assert [c] + tail == head && [c] + (tail + "/" + rest) == head + "/" + rest;
      PrependBoth(c, Split(tail), Split(rest));
    }
  }

  lemma {:induction false} JoinBoth(a: seq<string>, b: seq<string>)
    requires a != [] && b != []
    ensures Join(a + b) == Join(a) + "/" + Join(b)
  {
    if |a| == 1 {
      assert (a + b)[1..] == b;
    } else {
      JoinBoth(a[1..], b);
      assert (a + b)[1..] == a[1..] + b;
      assert a[0] + "/" + (Join(a[1..]) + "/" + Join(b)) == (a[0] + "/" + Join(a[1..])) + "/" + Join(b);
    }
  }

  lemma OneSegmentIff(text: string)
    ensures |Split(text)| == 1 <==> '/' !in text
  {
    if '/' !in text { SplitPlain(text); }
    if |Split(text)| == 1 {
      JoinSplit(text);
      SplitSegmentsPlain(text);
      assert text == Split(text)[0];
      assert Split(text)[0] in Split(text);
    }
  }

  /** `path` has the segments of `base` and `more` further ones. */
  ghost predicate Under(base: string, path: string, more: int) {
    var (segments, n) := (Split(path), |Split(base)|);
    more >= 0 && |segments| == n + more && segments[..n] == Split(base)
  }

  lemma UnderIs(base: string, path: string)
    ensures base + "/" <= path ==> Under(base, path, |Split(path[|base| + 1..])|)
    ensures (exists more :: more > 0 && Under(base, path, more)) ==> base + "/" <= path
  {
    hide Split, Join;
    if base + "/" <= path {
      var rest := path[|base| + 1..];
      assert path == base + "/" + rest;
      SplitAround(base, rest);
      assert Split(path)[..|Split(base)|] == Split(base);
    }
    if more :| more > 0 && Under(base, path, more) {
      var (n, segments) := (|Split(base)|, Split(path));
      assert segments == segments[..n] + segments[n..];
      JoinBoth(segments[..n], segments[n..]);
      JoinSplit(path);
      JoinSplit(base);
    }
  }

  /** A selector matches everything, the path itself, all paths below it, or those one segment below it. */
  lemma MatchesMeans(selector: Selector, path: string)
    ensures Matches(selector, path)
       <==> match selector.kind {
              case All => true
              case Literal => path == selector.base
              case Tree => exists more :: more > 0 && Under(selector.base, path, more)
              case Children => Under(selector.base, path, 1)
            }
  {
    hide Split;
    var base := selector.base;
    UnderIs(base, path);
    if base + "/" <= path {
      var rest := path[|base| + 1..];
      OneSegmentIff(rest);
      assert Under(base, path, |Split(rest)|);
    }
  }
}
