/** Scanning Markdown text for inline links and rewriting their targets. */
module WikiLinks {
  import opened Text

  // ---------------------------------------------------------------- the scanner's three searches

  /** `content.find(c, from)`. */
  function FindChar(content: string, c: char, from: nat): (r: Option<nat>)
    ensures r.Some? ==> from <= r.value < |content| && content[r.value] == c
    decreases |content| - from
  {
    if from >= |content| then None
    else if content[from] == c then Some(from)
    else FindChar(content, c, from + 1)
  }

  /** The first position from `i` on that is not whitespace. */
  function SkipSpace(content: string, i: nat): (r: nat)
    requires i <= |content|
    ensures i <= r <= |content|
    decreases |content| - i
  {
    if i < |content| && IsSpace(content[i]) then SkipSpace(content, i + 1) else i
  }

  /** An unescaped ']' followed, after whitespace, by '('. */
  predicate ClosesLabel(content: string, p: nat)
    requires 0 < p < |content|
  {
    content[p] == ']' && content[p - 1] != '\\' &&
    var q := SkipSpace(content, p + 1); q < |content| && content[q] == '('
  }

  method SkipWhitespace(content: string, i: nat) returns (r: nat)
    requires i <= |content|
    ensures r == SkipSpace(content, i)
  {
    r := i;
    while r < |content| && IsSpace(content[r])
      invariant i <= r <= |content| && SkipSpace(content, r) == SkipSpace(content, i)
    {
      r := r + 1;
    }
  }

  method FindLabelEnd(content: string, labelStart: nat) returns (r: Option<nat>)
    requires labelStart < |content|
    ensures r == LabelEnd(content, labelStart)
  {
    var index := labelStart + 1;
    while index < |content|
      invariant labelStart < index
      invariant LabelEnd(content, labelStart) == FirstLabelEnd(content, index)
      decreases |content| - index
    {
      var found := FindChar(content, ']', index);
      SkipToBracket(content, index);
      if found == None {
        return None;
      }
      var close := found.value;
      if content[close - 1] == '\\' {
        index := close + 1;
        continue;
      }
      var lookahead := SkipWhitespace(content, close + 1);
      if lookahead < |content| && content[lookahead] == '(' {
        return Some(close);
      }
      index := close + 1;
    }
    return None;
  }

  function LabelEnd(content: string, labelStart: nat): Option<nat>
    requires labelStart < |content|
  {
    FirstLabelEnd(content, labelStart + 1)
  }

  /** The first position from `index` on that closes a label. */
  function FirstLabelEnd(content: string, index: nat): (r: Option<nat>)
    requires 0 < index
    ensures r.Some? ==> index <= r.value < |content| && ClosesLabel(content, r.value)
    decreases |content| - index
  {
    if index >= |content| then None
    else if ClosesLabel(content, index) then Some(index)
    else FirstLabelEnd(content, index + 1)
  }

  /** A label ends at its first unescaped ']' that a '(' follows, if there is one. */
  lemma {:induction false} LabelEndIsFirst(content: string, index: nat, p: nat)
    requires 0 < index <= p < |content| && ClosesLabel(content, p)
    ensures FirstLabelEnd(content, index).Some? && FirstLabelEnd(content, index).value <= p
    decreases |content| - index
  {
    if !ClosesLabel(content, index) {
      LabelEndIsFirst(content, index + 1, p);
    }
  }

  lemma {:induction false} SkipToBracket(content: string, index: nat)
    requires 0 < index <= |content|
    ensures var found := FindChar(content, ']', index);
            FirstLabelEnd(content, index) == if found.Some? then FirstLabelEnd(content, found.value) else None
    decreases |content| - index
  {
    if index < |content| && content[index] != ']' {
      SkipToBracket(content, index + 1);
    }
  }

  /** The end of a link target: the position of its closing parenthesis. */
  function TargetEnd(content: string, index: nat, depth: nat): Option<nat>
    decreases |content| - index
  {
    if index >= |content| then None
    else if content[index] == '\\' then TargetEnd(content, index + 2, depth)
    else if content[index] == '(' then TargetEnd(content, index + 1, depth + 1)
    else if content[index] == ')' then
      if depth == 0 then Some(index) else TargetEnd(content, index + 1, depth - 1)
    else TargetEnd(content, index + 1, depth)
  }

  method FindTargetEnd(content: string, targetStart: nat) returns (r: Option<nat>)
    ensures r == TargetEnd(content, targetStart, 0)
  {
    var depth := 0;
    var index := targetStart;
    while index < |content|
      invariant depth >= 0
      invariant TargetEnd(content, targetStart, 0) == TargetEnd(content, index, depth)
      decreases |content| - index
    {
      var character := content[index];
      if character == '\\' {
        index := index + 2;
        continue;
      }
      if character == '(' {
        depth := depth + 1;
      } else if character == ')' {
        if depth == 0 {
          return Some(index);
        }
        depth := depth - 1;
      }
      index := index + 1;
    }
    return None;
  }

  // ---------------------------------------------------------------- what ends a target

  /** Character i is escaped: an unescaped backslash stands before it. */
  ghost predicate Escaped(content: string, start: nat, i: nat)
    requires start <= i <= |content|
    decreases i
  {
    i > start && content[i - 1] == '\\' && !Escaped(content, start, i - 1)
  }

  ghost predicate Opens(content: string, start: nat, i: nat)
    requires start <= i < |content|
  {
    content[i] == '(' && !Escaped(content, start, i)
  }

  ghost predicate Closes(content: string, start: nat, i: nat)
    requires start <= i < |content|
  {
    content[i] == ')' && !Escaped(content, start, i)
  }

  /** Unescaped '(' minus unescaped ')' in content[start..i]. */
  ghost function Balance(content: string, start: nat, i: nat): int
    requires start <= i <= |content|
    decreases i
  {
    if i == start then 0
    else
      Balance(content, start, i - 1)
      + (if Opens(content, start, i - 1) then 1 else if Closes(content, start, i - 1) then -1 else 0)
  }

  /** No unescaped ')' before i underflows. */
  ghost predicate NoUnderflow(content: string, start: nat, i: nat)
    requires start <= i <= |content|
  {
    forall j :: start <= j < i && Closes(content, start, j) ==> Balance(content, start, j) > 0
  }

  lemma {:induction false} TargetEndFrom(content: string, start: nat, index: nat, depth: nat)
    requires start <= |content| && start <= index
    requires index <= |content| ==>
               !Escaped(content, start, index) && depth == Balance(content, start, index) &&
               NoUnderflow(content, start, index)
    requires index > |content| ==> NoUnderflow(content, start, |content|)
    ensures match TargetEnd(content, index, depth)
            case Some(r) =>
              index <= r < |content| && Closes(content, start, r) && Balance(content, start, r) == 0 &&
                  NoUnderflow(content, start, r)
            case None => NoUnderflow(content, start, |content|)
    decreases |content| - index
  {
    if index < |content| {
      var c := content[index];
      assert Balance(content, start, index + 1)
          == Balance(content, start, index) + (if c == '(' then 1 else if c == ')' then -1 else 0);
      if c == '\\' {
        assert Escaped(content, start, index + 1);
        assert NoUnderflow(content, start, index + 1);
        if index + 2 <= |content| {
          assert Balance(content, start, index + 2) == Balance(content, start, index + 1);
          assert NoUnderflow(content, start, index + 2);
        }
        TargetEndFrom(content, start, index + 2, depth);
      } else {
        assert !Escaped(content, start, index + 1);
        if c == '(' {
          TargetEndFrom(content, start, index + 1, depth + 1);
        } else if c == ')' {
          if depth > 0 {
            TargetEndFrom(content, start, index + 1, depth - 1);
          }
        } else {
          TargetEndFrom(content, start, index + 1, depth);
        }
      }
    }
  }

  /** A target ends at the first unescaped ')' whose nesting underflows, if there is one. */
  lemma TargetEndIsUnderflow(content: string, start: nat)
    requires start <= |content|
    ensures match TargetEnd(content, start, 0)
            case Some(r) =>
              start <= r < |content| && Closes(content, start, r) && Balance(content, start, r) == 0 &&
                  NoUnderflow(content, start, r)
            case None => NoUnderflow(content, start, |content|)
  {
    TargetEndFrom(content, start, start, 0);
  }

  // ---------------------------------------------------------------- the links

  datatype MarkdownLink = MarkdownLink(start: nat, end: nat, prefix: string, target: string, suffix: string)

  /** One turn of the scan: the link found, if any, and where the scan goes on. */
  datatype Attempt = Attempt(link: Option<MarkdownLink>, next: nat)

  function Attempted(content: string, p: nat): Attempt
    requires p < |content|
  {
    match LabelEnd(content, p)
    case None => Attempt(None, p + 1)
    case Some(close) => AfterLabel(content, p, close)
  }

  /** The label opened at p and closed at `close`; now the target. */
  function AfterLabel(content: string, p: nat, close: nat): Attempt
    requires p < close < |content| && ClosesLabel(content, close)
  {
    var targetStart := SkipSpace(content, close + 1) + 1;
    match TargetEnd(content, targetStart, 0)
    case None => Attempt(None, close + 1)
    case Some(end) =>
      TargetEndIsUnderflow(content, targetStart);
      Attempt(Some(LinkAt(content, p, targetStart, end)), end + 1)
  }

  /** A '!' before the label belongs to the link. */
  function LinkAt(content: string, p: nat, targetStart: nat, end: nat): MarkdownLink
    requires p < targetStart <= end < |content|
  {
    var start := if p > 0 && content[p - 1] == '!' then p - 1 else p;
    MarkdownLink(start, end + 1, content[start..targetStart], content[targetStart..end], ")")
  }

  /** A found link is a slice of the text ending in ')', and starts at p or at a '!' before it. */
  ghost predicate SliceFrom(content: string, p: nat, l: MarkdownLink) {
    l.start <= p < l.end <= |content| && p <= l.start + 1 &&
    (l.start < p ==> content[l.start] == '!') &&
    content[l.end - 1] == ')' && content[l.start..l.end] == l.prefix + l.target + l.suffix
  }

  /** The target stands between a '(' and the first unescaped ')' that underflows. */
  ghost predicate TargetBalanced(content: string, l: MarkdownLink) {
    l.suffix == ")" && |l.prefix| > 0 && l.prefix[|l.prefix| - 1] == '(' &&
    l.start + |l.prefix| + |l.target| + 1 == l.end <= |content| &&
    var targetStart := l.start + |l.prefix|;
    l.target == content[targetStart..l.end - 1] &&
    Closes(content, targetStart, l.end - 1) && Balance(content, targetStart, l.end - 1) == 0 &&
    NoUnderflow(content, targetStart, l.end - 1)
  }

  lemma AfterLabelFacts(content: string, p: nat, close: nat)
    requires p < close < |content| && ClosesLabel(content, close)
    ensures var a := AfterLabel(content, p, close);
            && p < a.next <= |content|
            && (a.link.Some? ==>
                  && a.next == a.link.value.end
                  && SliceFrom(content, p, a.link.value) && TargetBalanced(content, a.link.value))
            && (a.link.None? ==> a.next == close + 1)
  {
    var targetStart := SkipSpace(content, close + 1) + 1;
    TargetEndIsUnderflow(content, targetStart);
    var end := TargetEnd(content, targetStart, 0);
    if end.Some? {
      LinkFacts(content, p, targetStart, end.value);
    }
  }

  lemma LinkFacts(content: string, p: nat, targetStart: nat, end: nat)
    requires p < targetStart <= end < |content| && content[targetStart - 1] == '(' && content[end] == ')'
    requires Closes(content, targetStart, end) && Balance(content, targetStart, end) == 0 &&
             NoUnderflow(content, targetStart, end)
    ensures var l := LinkAt(content, p, targetStart, end);
            SliceFrom(content, p, l) && TargetBalanced(content, l)
  {
    SliceThree(content, LinkAt(content, p, targetStart, end).start, targetStart, end);
  }

  lemma SliceThree(content: string, start: nat, targetStart: nat, end: nat)
    requires start < targetStart <= end < |content| && content[end] == ')' && content[targetStart - 1] == '('
    ensures content[start..end + 1] == content[start..targetStart] + content[targetStart..end] + ")"
    ensures content[start..targetStart][|content[start..targetStart]| - 1] == '('
  {
    assert content[end..end + 1] == ")";
  }

  /** After a failed attempt the scan goes on right behind a '[' or a ']'. */
  lemma AttemptFacts(content: string, p: nat)
    requires p < |content| && content[p] == '['
    ensures var a := Attempted(content, p);
            && p < a.next <= |content| && content[a.next - 1] != '!'
            && (a.link.Some? ==>
                  && a.next == a.link.value.end
                  && SliceFrom(content, p, a.link.value) && TargetBalanced(content, a.link.value))
  {
    if LabelEnd(content, p).Some? {
      AfterLabelFacts(content, p, LabelEnd(content, p).value);
    }
  }

  function Scan(content: string, index: nat): seq<MarkdownLink>
    requires index <= |content|
    decreases |content| - index
  {
    match FindChar(content, '[', index)
    case None => []
    case Some(p) =>
      AttemptFacts(content, p);
      var a := Attempted(content, p);
      (if a.link.Some? then [a.link.value] else []) + Scan(content, a.next)
  }

  method TryLink(content: string, labelStart: nat) returns (a: Attempt)
    requires labelStart < |content|
    ensures a == Attempted(content, labelStart)
  {
    var labelEnd := FindLabelEnd(content, labelStart);
    if labelEnd == None {
      return Attempt(None, labelStart + 1);
    }
    a := TryTarget(content, labelStart, labelEnd.value);
  }

  method TryTarget(content: string, labelStart: nat, labelEnd: nat) returns (a: Attempt)
    requires labelStart < labelEnd < |content| && ClosesLabel(content, labelEnd)
    ensures a == AfterLabel(content, labelStart, labelEnd)
  {
    var linkStart := if labelStart > 0 && content[labelStart - 1] == '!' then labelStart - 1 else labelStart;
    var targetStart := SkipWhitespace(content, labelEnd + 1);
    // The label search has already seen this parenthesis; the original checks again.
    assert targetStart < |content| && content[targetStart] == '(';
    targetStart := targetStart + 1;
    var targetEnd := FindTargetEnd(content, targetStart);
    if targetEnd == None {
      return Attempt(None, labelEnd + 1);
    }
    TargetEndIsUnderflow(content, targetStart);
    var end := targetEnd.value;
    var prefix, target := content[linkStart..targetStart], content[targetStart..end];
    a := Attempt(Some(MarkdownLink(linkStart, end + 1, prefix, target, ")")), end + 1);
  }

  method IterMarkdownLinks(content: string) returns (links: seq<MarkdownLink>)
    ensures links == Scan(content, 0)
  {
    links := [];
    var index := 0;
    while index < |content|
      invariant index <= |content|
      invariant Scan(content, 0) == links + Scan(content, index)
      decreases |content| - index
    {
      var found := FindChar(content, '[', index);
      if found == None {
        break;
      }
      ScanStep(content, index, links);
      var a := TryLink(content, found.value);
      if a.link.Some? {
        links := links + [a.link.value];
      }
      index := a.next;
    }
    assert Scan(content, index) == [];
  }

  lemma ScanStep(content: string, index: nat, links: seq<MarkdownLink>)
    requires index <= |content| && FindChar(content, '[', index).Some?
    ensures var a := Attempted(content, FindChar(content, '[', index).value);
            index < a.next <= |content| &&
            links + Scan(content, index)
                == (if a.link.Some? then links + [a.link.value] else links) + Scan(content, a.next)
  {
    var p := FindChar(content, '[', index).value;
    AttemptFacts(content, p);
    var a := Attempted(content, p);
    var found := if a.link.Some? then [a.link.value] else [];
    assert Scan(content, index) == found + Scan(content, a.next);
    Associative(links, found, Scan(content, a.next));
    assert links + [] == links;
  }

  // ---------------------------------------------------------------- what the scan yields

  /** Spans in order, disjoint, at or after `from`, each equal to its source slice. */
  ghost predicate Lossless(content: string, links: seq<MarkdownLink>, from: nat)
    decreases links
  {
    links == [] ||
    (var l := links[0];
     from <= l.start < l.end <= |content| &&
     content[l.start..l.end] == l.prefix + l.target + l.suffix &&
     Lossless(content, links[1..], l.end))
  }

  lemma LosslessEarlier(content: string, links: seq<MarkdownLink>, from: nat, to: nat)
    requires Lossless(content, links, from) && to <= from
    ensures Lossless(content, links, to)
  {
  }

  /** The scanned links are lossless, even when a '!' moves a start back by one: the character
      before the scan position is never a '!'. */
  lemma {:induction false} ScanIsLossless(content: string, index: nat)
    requires index <= |content| && (index > 0 ==> content[index - 1] != '!')
    ensures Lossless(content, Scan(content, index), index)
    decreases |content| - index
  {
    var found := FindChar(content, '[', index);
    if found.Some? {
      AttemptFacts(content, found.value);
      var a := Attempted(content, found.value);
      ScanIsLossless(content, a.next);
      if a.link.None? {
        assert Scan(content, index) == Scan(content, a.next);
        LosslessEarlier(content, Scan(content, a.next), a.next, index);
      } else {
        assert Scan(content, index) == [a.link.value] + Scan(content, a.next);
        assert Scan(content, index)[1..] == Scan(content, a.next);
      }
    }
  }

  /** Every scanned target ends at the first unescaped ')' whose nesting underflows. */
  lemma {:induction false} ScanTargetsBalanced(content: string, index: nat, k: nat)
    requires index <= |content| && k < |Scan(content, index)|
    ensures TargetBalanced(content, Scan(content, index)[k])
    decreases |content| - index
  {
    var p := FindChar(content, '[', index).value;
    AttemptFacts(content, p);
    var a := Attempted(content, p);
    if a.link.None? {
      assert Scan(content, index) == Scan(content, a.next);
      ScanTargetsBalanced(content, a.next, k);
    } else if k > 0 {
      assert Scan(content, index)[k] == Scan(content, a.next)[k - 1];
      ScanTargetsBalanced(content, a.next, k - 1);
    }
  }

  // ---------------------------------------------------------------- nothing is missed

  ghost predicate Covered(links: seq<MarkdownLink>, p: nat) {
    exists k :: 0 <= k < |links| && links[k].start <= p < links[k].end
  }

  /** Between a start and the label end found from there, every start finds the same end. */
  lemma {:induction false} SameLabelEnd(content: string, index: nat, mid: nat)
    requires 0 < index <= mid && FirstLabelEnd(content, index).Some? && mid <= FirstLabelEnd(content, index).value
    ensures FirstLabelEnd(content, mid) == FirstLabelEnd(content, index)
    decreases |content| - index
  {
    if index < mid {
      SameLabelEnd(content, index + 1, mid);
    }
  }

  /** What a failed attempt steps over begins no link either: it has the same label end, if any,
      and the same failing target. */
  lemma SteppedOverFails(content: string, q: nat, p: nat)
    requires q <= p < |content| && content[p] == '['
    requires Attempted(content, q).link.None? && p < Attempted(content, q).next
    ensures Attempted(content, p).link.None?
  {
    var close := LabelEnd(content, q);
    if close.Some? {
      AfterLabelFacts(content, q, close.value);
      assert content[close.value] == ']';
      SameLabelEnd(content, q + 1, p + 1);
    }
  }

  lemma {:induction false} FindCharFirst(content: string, c: char, from: nat, p: nat)
    requires from <= p < |content| && content[p] == c
    ensures FindChar(content, c, from).Some? && FindChar(content, c, from).value <= p
    decreases |content| - from
  {
    if content[from] != c {
      FindCharFirst(content, c, from + 1, p);
    }
  }

  lemma {:induction false} CoveredOrFailed(content: string, index: nat, p: nat)
    requires index <= p < |content| && content[p] == '['
    ensures Covered(Scan(content, index), p) || Attempted(content, p).link.None?
    decreases |content| - index
  {
    FindCharFirst(content, '[', index, p);
    var q := FindChar(content, '[', index).value;
    AttemptFacts(content, q);
    var a := Attempted(content, q);
    var rest := Scan(content, a.next);
    if p < a.next {
      if a.link.Some? {
        assert Scan(content, index)[0] == a.link.value;
      } else {
        SteppedOverFails(content, q, p);
      }
    } else {
      CoveredOrFailed(content, a.next, p);
      if Covered(rest, p) {
        var k :| 0 <= k < |rest| && rest[k].start <= p < rest[k].end;
        assert Scan(content, index)[if a.link.Some? then k + 1 else k] == rest[k];
      }
    }
  }

  // ---------------------------------------------------------------- what a link is

  /** An unescaped ']' and the '(' after it, with nothing but whitespace between. */
  ghost predicate LabelEndsAt(content: string, close: nat, open: nat) {
    && 0 < close < open < |content|
    && content[close] == ']' && content[close - 1] != '\\' && content[open] == '('
    && forall i :: close < i < open ==> IsSpace(content[i])
  }

  /** The link that begins at the '[' at p: its label ends at the first possible ']', its target at the
      first underflow, and a '!' before it belongs to it. */
  ghost predicate LinkFrom(content: string, p: nat, l: MarkdownLink) {
    && p < |content| && content[p] == '['
    && l.start == (if p > 0 && content[p - 1] == '!' then p - 1 else p)
    && TargetBalanced(content, l) && l.prefix == content[l.start..l.start + |l.prefix|]
    && LabelledTo(content, p, l.start + |l.prefix| - 1)
  }

  ghost predicate LabelledTo(content: string, p: nat, open: nat) {
    exists close :: Labelled(content, p, close, open)
  }

  ghost predicate Labelled(content: string, p: nat, close: nat, open: nat) {
    && p < close < open && LabelEndsAt(content, close, open)
    && forall c, o :: p < c < close ==> !LabelEndsAt(content, c, o)
  }

  lemma {:induction false} SkipsSpace(content: string, i: nat)
    requires i <= |content|
    ensures forall j :: i <= j < SkipSpace(content, i) ==> IsSpace(content[j])
    ensures SkipSpace(content, i) < |content| ==> !IsSpace(content[SkipSpace(content, i)])
    decreases |content| - i
  {
    if i < |content| && IsSpace(content[i]) {
      SkipsSpace(content, i + 1);
    }
  }

  lemma ClosesLabelIff(content: string, close: nat, open: nat)
    requires 0 < close < |content|
    ensures LabelEndsAt(content, close, open) ==> ClosesLabel(content, close) && open == SkipSpace(content, close + 1)
    ensures ClosesLabel(content, close) ==> LabelEndsAt(content, close, SkipSpace(content, close + 1))
  {
    SkipsSpace(content, close + 1);
    assert !IsSpace('(');
  }

  lemma LabelledIff(content: string, p: nat, close: nat, open: nat)
    requires p < |content|
    ensures Labelled(content, p, close, open) <==>
            LabelEnd(content, p) == Some(close) && open == SkipSpace(content, close + 1)
  {
    if Labelled(content, p, close, open) {
      ClosesLabelIff(content, close, open);
      LabelEndIsFirst(content, p + 1, close);
      var first := LabelEnd(content, p).value;
      ClosesLabelIff(content, first, SkipSpace(content, first + 1));
    }
    if LabelEnd(content, p) == Some(close) && open == SkipSpace(content, close + 1) {
      ClosesLabelIff(content, close, open);
      forall c, o | p < c < close ensures !LabelEndsAt(content, c, o) {
        ClosesLabelIff(content, c, o);
        if ClosesLabel(content, c) {
          LabelEndIsFirst(content, p + 1, c);
        }
      }
    }
  }

  /** The target found is the only balanced one. */
  lemma BalancedEnd(content: string, start: nat, end: nat)
    requires start <= end < |content|
    requires Closes(content, start, end) && Balance(content, start, end) == 0 && NoUnderflow(content, start, end)
    ensures TargetEnd(content, start, 0) == Some(end)
  {
    TargetEndIsUnderflow(content, start);
    assert !NoUnderflow(content, start, |content|);
  }

  lemma AttemptIsLink(content: string, p: nat)
    requires p < |content| && content[p] == '[' && Attempted(content, p).link.Some?
    ensures LinkFrom(content, p, Attempted(content, p).link.value)
  {
    var l := Attempted(content, p).link.value;
    var close := LabelEnd(content, p).value;
    var open := SkipSpace(content, close + 1);
    AttemptFacts(content, p);
    LabelledIff(content, p, close, open);
    assert Labelled(content, p, close, open) && open == l.start + |l.prefix| - 1;
  }

  lemma LinkIsAttempt(content: string, p: nat, l: MarkdownLink)
    requires LinkFrom(content, p, l)
    ensures Attempted(content, p).link == Some(l)
  {
    var targetStart := l.start + |l.prefix|;
    var close :| Labelled(content, p, close, targetStart - 1);
    LabelledIff(content, p, close, targetStart - 1);
    BalancedEnd(content, targetStart, l.end - 1);
    FoundAt(content, p, close, targetStart, l.end - 1);
    SameLink(content, p, l);
  }

  lemma FoundAt(content: string, p: nat, close: nat, targetStart: nat, end: nat)
    requires p < close < targetStart <= end < |content| && LabelEnd(content, p) == Some(close)
    requires SkipSpace(content, close + 1) + 1 == targetStart && TargetEnd(content, targetStart, 0) == Some(end)
    ensures Attempted(content, p).link == Some(LinkAt(content, p, targetStart, end))
  {
  }

  /** A link is determined by where it begins and where its target stands. */
  lemma SameLink(content: string, p: nat, l: MarkdownLink)
    requires LinkFrom(content, p, l) && p < l.start + |l.prefix|
    ensures l == LinkAt(content, p, l.start + |l.prefix|, l.end - 1)
  {
  }

  /** An attempt finds exactly the link that begins there. */
  lemma AttemptedIff(content: string, p: nat, l: MarkdownLink)
    requires p < |content| && content[p] == '['
    ensures Attempted(content, p).link == Some(l) <==> LinkFrom(content, p, l)
  {
    if Attempted(content, p).link.Some? {
      AttemptIsLink(content, p);
    }
    if LinkFrom(content, p, l) {
      LinkIsAttempt(content, p, l);
    }
  }

  /** Every yielded link is the one that begins at its '['. */
  lemma {:induction false} ScanIsSound(content: string, index: nat, k: nat) returns (p: nat)
    requires index <= |content| && k < |Scan(content, index)|
    ensures index <= p && LinkFrom(content, p, Scan(content, index)[k])
    decreases |content| - index
  {
    p := FindChar(content, '[', index).value;
    AttemptFacts(content, p);
    var a := Attempted(content, p);
    var rest := Scan(content, a.next);
    if a.link.Some? && k == 0 {
      AttemptedIff(content, p, a.link.value);
    } else {
      assert Scan(content, index)[k] == rest[if a.link.Some? then k - 1 else k];
      p := ScanIsSound(content, a.next, if a.link.Some? then k - 1 else k);
    }
  }

  /** Every '[' is inside a yielded link or begins no link. */
  lemma ScanIsComplete(content: string, index: nat, p: nat)
    requires index <= p < |content| && content[p] == '['
    ensures Covered(Scan(content, index), p) || forall l :: !LinkFrom(content, p, l)
  {
    CoveredOrFailed(content, index, p);
    forall l ensures LinkFrom(content, p, l) ==> Attempted(content, p).link == Some(l) {
      AttemptedIff(content, p, l);
    }
  }

  // ---------------------------------------------------------------- rewriting

  function Rewrite(segment: string, links: seq<MarkdownLink>, from: nat, f: string -> string): string
    requires from <= |segment| && Lossless(segment, links, from)
    decreases links
  {
    if links == [] then segment[from..]
    else
      var l := links[0];
      segment[from..l.start] + (l.prefix + f(l.target) + l.suffix) + Rewrite(segment, links[1..], l.end, f)
  }

  /** `rewrite_links_in_segment`; f maps a link target to its replacement. */
  method RewriteLinksInSegment(segment: string, f: string -> string) returns (result: string)
    ensures Lossless(segment, Scan(segment, 0), 0) && result == Rewrite(segment, Scan(segment, 0), 0, f)
  {
    var links := IterMarkdownLinks(segment);
    ScanIsLossless(segment, 0);
    if links == [] {
      return segment;
    }
    result := RewriteLinks(segment, links, f);
  }

  method RewriteLinks(segment: string, links: seq<MarkdownLink>, f: string -> string) returns (result: string)
    requires Lossless(segment, links, 0)
    ensures result == Rewrite(segment, links, 0, f)
  {
    result := "";
    var previousEnd: nat := 0;
    assert links[0..] == links;
    for i := 0 to |links|
      invariant previousEnd <= |segment| && Lossless(segment, links[i..], previousEnd)
      invariant Rewrite(segment, links, 0, f) == result + Rewrite(segment, links[i..], previousEnd, f)
    {
      var l := links[i];
      RewriteStep(segment, links, i, previousEnd, f, result);
      result := result + segment[previousEnd..l.start];
      result := result + (l.prefix + f(l.target) + l.suffix);
      previousEnd := l.end;
    }
    assert links[|links|..] == [];
    result := result + segment[previousEnd..];
  }

  lemma RewriteStep(segment: string, links: seq<MarkdownLink>, i: nat, from: nat, f: string -> string, done: string)
    requires i < |links| && from <= |segment| && Lossless(segment, links[i..], from)
    ensures var l := links[i];
            from <= l.start <= l.end <= |segment| && Lossless(segment, links[i + 1..], l.end) &&
            done + Rewrite(segment, links[i..], from, f)
            == (done + segment[from..l.start]) + (l.prefix + f(l.target) + l.suffix)
                + Rewrite(segment, links[i + 1..], l.end, f)
  {
    var l := links[i];
    assert links[i..][0] == l && links[i..][1..] == links[i + 1..];
    var gap, piece := segment[from..l.start], l.prefix + f(l.target) + l.suffix;
    var rest := Rewrite(segment, links[i + 1..], l.end, f);
    assert Rewrite(segment, links[i..], from, f) == (gap + piece) + rest;
    Associative(done, gap + piece, rest);
    Associative(done, gap, piece);
  }

  /** The text around the targets: what a rewriting copies. */
  ghost function Verbatim(segment: string, links: seq<MarkdownLink>, from: nat): seq<string>
    requires from <= |segment| && Lossless(segment, links, from)
    decreases links
  {
    if links == [] then [segment[from..]]
    else
      var l := links[0];
      var rest := Verbatim(segment, links[1..], l.end);
      [segment[from..l.start] + l.prefix, l.suffix + rest[0]] + rest[1..]
  }

  ghost function Targets(links: seq<MarkdownLink>): seq<string> {
    if links == [] then [] else [links[0].target] + Targets(links[1..])
  }

  ghost function MapAll(f: string -> string, ts: seq<string>): seq<string> {
    if ts == [] then [] else [f(ts[0])] + MapAll(f, ts[1..])
  }

  ghost function Interleave(verbatim: seq<string>, ts: seq<string>): string {
    if verbatim == [] then ""
    else if ts == [] then verbatim[0]
    else verbatim[0] + ts[0] + Interleave(verbatim[1..], ts[1..])
  }

  lemma InterleaveFirst(head: string, verbatim: seq<string>, ts: seq<string>)
    requires verbatim != []
    ensures Interleave([head + verbatim[0]] + verbatim[1..], ts) == head + Interleave(verbatim, ts)
  {
    var v := [head + verbatim[0]] + verbatim[1..];
    assert v[0] == head + verbatim[0] && v[1..] == verbatim[1..];
    if ts != [] {
      assert v[0] + ts[0] + Interleave(v[1..], ts[1..])
          == head + (verbatim[0] + ts[0] + Interleave(verbatim[1..], ts[1..]));
    }
  }

  lemma InterleaveStep(head: string, suffix: string, rest: seq<string>, t: string, ts: seq<string>)
    requires rest != []
    ensures Interleave([head, suffix + rest[0]] + rest[1..], [t] + ts) == head + t + (suffix + Interleave(rest, ts))
  {
    var v := [head, suffix + rest[0]] + rest[1..];
    assert v[1..] == [suffix + rest[0]] + rest[1..];
    assert ([t] + ts)[1..] == ts;
    InterleaveFirst(suffix, rest, ts);
  }

  /** The source interleaves its verbatim text with the targets. */
  lemma {:induction false} SourceInterleaves(segment: string, links: seq<MarkdownLink>, from: nat)
    requires from <= |segment| && Lossless(segment, links, from)
    ensures |Verbatim(segment, links, from)| == |links| + 1
    ensures segment[from..] == Interleave(Verbatim(segment, links, from), Targets(links))
    decreases links
  {
    if links != [] {
      var l := links[0];
      SourceInterleaves(segment, links[1..], l.end);
      var rest := Verbatim(segment, links[1..], l.end);
      InterleaveStep(segment[from..l.start] + l.prefix, l.suffix, rest, l.target, Targets(links[1..]));
      assert segment[from..] == segment[from..l.start] + segment[l.start..l.end] + segment[l.end..];
      Regroup(segment[from..l.start], l.prefix, l.target, l.suffix, segment[l.end..]);
    }
  }

  lemma Regroup(gap: string, prefix: string, target: string, suffix: string, rest: string)
    ensures gap + (prefix + target + suffix) + rest == (gap + prefix) + target + (suffix + rest)
  {
  }

  /** A rewriting interleaves the same verbatim text with the replacements: nothing but targets
      changes, whatever the replacement. */
  lemma {:induction false} RewriteChangesOnlyTargets(segment: string, links: seq<MarkdownLink>, from: nat,
                                                     f: string -> string)
    requires from <= |segment| && Lossless(segment, links, from)
    ensures segment[from..] == Interleave(Verbatim(segment, links, from), Targets(links))
    ensures Rewrite(segment, links, from, f) == Interleave(Verbatim(segment, links, from), MapAll(f, Targets(links)))
    decreases links
  {
    SourceInterleaves(segment, links, from);
    if links != [] {
      var l := links[0];
      RewriteChangesOnlyTargets(segment, links[1..], l.end, f);
      SourceInterleaves(segment, links[1..], l.end);
      var rest := Verbatim(segment, links[1..], l.end);
      assert Targets(links) == [l.target] + Targets(links[1..]);
      assert MapAll(f, Targets(links)) == [f(l.target)] + MapAll(f, Targets(links[1..])) by {
        assert Targets(links)[1..] == Targets(links[1..]);
      }
      InterleaveStep(segment[from..l.start] + l.prefix, l.suffix, rest, f(l.target), MapAll(f, Targets(links[1..])));
      Regroup(segment[from..l.start], l.prefix, f(l.target), l.suffix, Rewrite(segment, links[1..], l.end, f));
    }
  }

  lemma {:induction false} MapIdentity(f: string -> string, ts: seq<string>)
    requires forall t :: f(t) == t
    ensures MapAll(f, ts) == ts
  {
    if ts != [] {
      MapIdentity(f, ts[1..]);
    }
  }

  /** Replacing every target by itself gives the segment back. */
  lemma RewriteIdentity(segment: string, f: string -> string)
    requires forall t :: f(t) == t
    ensures Lossless(segment, Scan(segment, 0), 0) && Rewrite(segment, Scan(segment, 0), 0, f) == segment
  {
    ScanIsLossless(segment, 0);
    RewriteChangesOnlyTargets(segment, Scan(segment, 0), 0, f);
    MapIdentity(f, Targets(Scan(segment, 0)));
    assert segment[0..] == segment;
  }

  // ---------------------------------------------------------------- segments

  datatype Kind = Plain | InlineCode | CodeBlock

  datatype Segment = Segment(kind: Kind, text: string)

  datatype Span = Span(start: nat, end: nat)

  /** What `finditer` yields: matches in order, without overlap, inside the text. */
  ghost predicate ValidSpans(spans: seq<Span>, from: nat, n: nat)
    decreases spans
  {
    from <= n &&
    (spans == [] || (from <= spans[0].start <= spans[0].end && ValidSpans(spans[1..], spans[0].end, n)))
  }

  lemma SpanEndsInside(spans: seq<Span>, from: nat, n: nat)
    requires ValidSpans(spans, from, n) && spans != []
    ensures spans[0].end <= n
  {
  }

  /** The matches of a pattern in any text. */
  type Matcher = string -> seq<Span>

  ghost predicate ValidMatcher(m: Matcher) {
    forall t :: ValidSpans(m(t), 0, |t|)
  }

  ghost function PlainPart(text: string): seq<Segment> {
    if text == "" then [] else [Segment(Plain, text)]
  }

  ghost function SplitInline(text: string, inlines: seq<Span>, from: nat): seq<Segment>
    requires ValidSpans(inlines, from, |text|)
    decreases inlines
  {
    if inlines == [] then PlainPart(text[from..])
    else
      SpanEndsInside(inlines, from, |text|);
      var m := inlines[0];
      PlainPart(text[from..m.start]) + [Segment(InlineCode, text[m.start..m.end])]
          + SplitInline(text, inlines[1..], m.end)
  }

  ghost function SplitText(text: string, inline: Matcher): seq<Segment>
    requires ValidMatcher(inline)
  {
    if text == "" then [] else SplitInline(text, inline(text), 0)
  }

  ghost function SplitAll(content: string, fences: seq<Span>, inline: Matcher, from: nat): seq<Segment>
    requires ValidSpans(fences, from, |content|) && ValidMatcher(inline)
    decreases fences
  {
    if fences == [] then SplitText(content[from..], inline)
    else
      SpanEndsInside(fences, from, |content|);
      var m := fences[0];
      SplitText(content[from..m.start], inline)
      + [Segment(CodeBlock, content[m.start..m.end])] + SplitAll(content, fences[1..], inline, m.end)
  }

  /** The inner loop of `iter_segments`. */
  method InlineSegments(text: string, inlines: seq<Span>) returns (segments: seq<Segment>)
    requires ValidSpans(inlines, 0, |text|)
    ensures segments == SplitInline(text, inlines, 0)
  {
    segments := [];
    var last: nat := 0;
    assert inlines[0..] == inlines;
    for i := 0 to |inlines|
      invariant ValidSpans(inlines[i..], last, |text|)
      invariant SplitInline(text, inlines, 0) == segments + SplitInline(text, inlines[i..], last)
    {
      var m := inlines[i];
      assert inlines[i..][0] == m && inlines[i..][1..] == inlines[i + 1..];
      SpanEndsInside(inlines[i..], last, |text|);
      ghost var plain, code := PlainPart(text[last..m.start]), [Segment(InlineCode, text[m.start..m.end])];
      Associative(segments, plain + code, SplitInline(text, inlines[i + 1..], m.end));
      Associative(segments, plain, code);
      if m.start > last {
        assert plain == [Segment(Plain, text[last..m.start])];
        segments := segments + [Segment(Plain, text[last..m.start])];
      } else {
        assert segments + plain == segments;
      }
      segments := segments + [Segment(InlineCode, text[m.start..m.end])];
      last := m.end;
    }
    assert inlines[|inlines|..] == [];
    if last < |text| {
      segments := segments + [Segment(Plain, text[last..])];
    }
  }

  /** The text up to a fence, and the fence. */
  method SegmentsTo(content: string, last: nat, m: Span, inline: Matcher) returns (segments: seq<Segment>)
    requires last <= m.start <= m.end <= |content| && ValidMatcher(inline)
    ensures segments == SplitText(content[last..m.start], inline) + [Segment(CodeBlock, content[m.start..m.end])]
  {
    segments := [];
    var before := content[last..m.start];
    if before != "" {
      segments := InlineSegments(before, inline(before));
    }
    segments := segments + [Segment(CodeBlock, content[m.start..m.end])];
  }

  method IterSegments(content: string, fences: seq<Span>, inline: Matcher) returns (segments: seq<Segment>)
    requires ValidSpans(fences, 0, |content|) && ValidMatcher(inline)
    ensures segments == SplitAll(content, fences, inline, 0)
  {
    segments := [];
    var last: nat := 0;
    assert fences[0..] == fences;
    for i := 0 to |fences|
      invariant ValidSpans(fences[i..], last, |content|)
      invariant SplitAll(content, fences, inline, 0) == segments + SplitAll(content, fences[i..], inline, last)
    {
      var m := fences[i];
      assert fences[i..][0] == m && fences[i..][1..] == fences[i + 1..];
      SpanEndsInside(fences[i..], last, |content|);
      var piece := SegmentsTo(content, last, m, inline);
      Associative(segments, piece, SplitAll(content, fences[i + 1..], inline, m.end));
      segments := segments + piece;
      last := m.end;
    }
    assert fences[|fences|..] == [];
    var tail := content[last..];
    if tail == "" {
      return;
    }
    var inner := InlineSegments(tail, inline(tail));
    segments := segments + inner;
  }

  ghost function Texts(segments: seq<Segment>): seq<string> {
    if segments == [] then [] else [segments[0].text] + Texts(segments[1..])
  }

  lemma {:induction false} TextsConcat(a: seq<Segment>, b: seq<Segment>)
    ensures Concat(Texts(a + b)) == Concat(Texts(a)) + Concat(Texts(b))
  {
    if a == [] {
      assert a + b == b;
    } else {
      assert (a + b)[1..] == a[1..] + b;
      TextsConcat(a[1..], b);
    }
  }

  lemma OneText(k: Kind, text: string)
    ensures Concat(Texts([Segment(k, text)])) == text
  {
    assert [Segment(k, text)][1..] == [];
    assert Texts([Segment(k, text)]) == [text] + [];
    assert [text][1..] == [];
    assert text + "" == text;
  }

  lemma PlainPartText(text: string)
    ensures Concat(Texts(PlainPart(text))) == text
  {
    if text != "" {
      OneText(Plain, text);
    }
  }

  lemma ThreeTexts(before: seq<Segment>, k: Kind, text: string, rest: seq<Segment>)
    ensures Concat(Texts(before + [Segment(k, text)] + rest)) == Concat(Texts(before)) + text + Concat(Texts(rest))
  {
    OneText(k, text);
    TextsConcat(before, [Segment(k, text)]);
    TextsConcat(before + [Segment(k, text)], rest);
  }

  lemma {:induction false} SplitInlineLossless(text: string, inlines: seq<Span>, from: nat)
    requires ValidSpans(inlines, from, |text|)
    ensures Concat(Texts(SplitInline(text, inlines, from))) == text[from..]
    decreases inlines
  {
    if inlines == [] {
      PlainPartText(text[from..]);
    } else {
      var m := inlines[0];
      SpanEndsInside(inlines, from, |text|);
      SplitInlineLossless(text, inlines[1..], m.end);
      PlainPartText(text[from..m.start]);
      ThreeTexts(PlainPart(text[from..m.start]), InlineCode, text[m.start..m.end],
          SplitInline(text, inlines[1..], m.end));
      CutThree(text, from, m.start, m.end);
    }
  }

  lemma SplitTextLossless(text: string, inline: Matcher)
    requires ValidMatcher(inline)
    ensures Concat(Texts(SplitText(text, inline))) == text
  {
    if text != "" {
      SplitInlineLossless(text, inline(text), 0);
      assert text[0..] == text;
    }
  }

  /** The segments cover the whole document, in order. */
  lemma {:induction false} SplitLossless(content: string, fences: seq<Span>, inline: Matcher, from: nat)
    requires ValidSpans(fences, from, |content|) && ValidMatcher(inline)
    ensures Concat(Texts(SplitAll(content, fences, inline, from))) == content[from..]
    decreases fences
  {
    if fences == [] {
      SplitTextLossless(content[from..], inline);
    } else {
      var m := fences[0];
      SpanEndsInside(fences, from, |content|);
      var first, rest := SplitText(content[from..m.start], inline), SplitAll(content, fences[1..], inline, m.end);
      assert Concat(Texts(first)) == content[from..m.start] by { SplitTextLossless(content[from..m.start], inline); }
      assert Concat(Texts(rest)) == content[m.end..] by { SplitLossless(content, fences[1..], inline, m.end); }
      ThreeTexts(first, CodeBlock, content[m.start..m.end], rest);
      assert SplitAll(content, fences, inline, from) == first + [Segment(CodeBlock, content[m.start..m.end])] + rest;
      CutThree(content, from, m.start, m.end);
    }
  }

  lemma CutThree(text: string, from: nat, a: nat, b: nat)
    requires from <= a <= b <= |text|
    ensures text[from..] == text[from..a] + text[a..b] + text[b..]
  {
  }

  // ---------------------------------------------------------------- the whole document

  /** A stretch of plain text with its link targets replaced. */
  ghost function Relinked(text: string, f: string -> string): string {
    ScanIsLossless(text, 0);
    Interleave(Verbatim(text, Scan(text, 0), 0), MapAll(f, Targets(Scan(text, 0))))
  }

  ghost function Relink(f: string -> string): string -> string {
    (text: string) => Relinked(text, f)
  }

  /** No segment of plain text is empty. */
  lemma {:induction false} NoEmptyText(content: string, fences: seq<Span>, inline: Matcher, from: nat)
    requires ValidSpans(fences, from, |content|) && ValidMatcher(inline)
    ensures forall s :: s in SplitAll(content, fences, inline, from) && s.kind == Plain ==> s.text != ""
    decreases fences
  {
    if fences == [] {
      NoEmptyInline(content[from..], inline(content[from..]), 0);
    } else {
      var m := fences[0];
      SpanEndsInside(fences, from, |content|);
      NoEmptyInline(content[from..m.start], inline(content[from..m.start]), 0);
      NoEmptyText(content, fences[1..], inline, m.end);
    }
  }

  lemma {:induction false} NoEmptyInline(text: string, inlines: seq<Span>, from: nat)
    requires ValidSpans(inlines, from, |text|)
    ensures forall s :: s in SplitInline(text, inlines, from) && s.kind == Plain ==> s.text != ""
    decreases inlines
  {
    if inlines != [] {
      SpanEndsInside(inlines, from, |text|);
      NoEmptyInline(text, inlines[1..], inlines[0].end);
    }
  }

  /** Code is copied; g is applied to plain text. */
  ghost function Rewritten(s: Segment, g: string -> string): string {
    if s.kind == Plain then g(s.text) else s.text
  }

  ghost function RewriteSegments(segments: seq<Segment>, g: string -> string): string {
    if segments == [] then "" else Rewritten(segments[0], g) + RewriteSegments(segments[1..], g)
  }

  /** The text from a position on, with the given spans copied and g applied to all between them. */
  ghost function AroundSpans(text: string, spans: seq<Span>, from: nat, g: string -> string): string
    requires ValidSpans(spans, from, |text|)
    decreases spans
  {
    if spans == [] then g(text[from..])
    else
      SpanEndsInside(spans, from, |text|);
      var m := spans[0];
      g(text[from..m.start]) + text[m.start..m.end] + AroundSpans(text, spans[1..], m.end, g)
  }

  /** The same around fences, with inline code copied in the text between them. */
  ghost function AroundCode(content: string, fences: seq<Span>, inline: Matcher, from: nat, g: string -> string): string
    requires ValidSpans(fences, from, |content|) && ValidMatcher(inline)
    decreases fences
  {
    if fences == [] then AroundSpans(content[from..], inline(content[from..]), 0, g)
    else
      SpanEndsInside(fences, from, |content|);
      var m := fences[0];
      var gap := content[from..m.start];
      AroundSpans(gap, inline(gap), 0, g) + content[m.start..m.end] + AroundCode(content, fences[1..], inline, m.end, g)
  }

  lemma {:induction false} RewriteConcat(a: seq<Segment>, b: seq<Segment>, g: string -> string)
    ensures RewriteSegments(a + b, g) == RewriteSegments(a, g) + RewriteSegments(b, g)
  {
    if a == [] {
      assert a + b == b;
    } else {
      assert (a + b)[1..] == a[1..] + b;
      RewriteConcat(a[1..], b, g);
      Associative(Rewritten(a[0], g), RewriteSegments(a[1..], g), RewriteSegments(b, g));
    }
  }

  lemma RewriteOne(s: Segment, g: string -> string)
    ensures RewriteSegments([s], g) == Rewritten(s, g)
  {
    assert [s][1..] == [];
  }

  lemma RewritePlain(text: string, g: string -> string)
    requires g("") == ""
    ensures RewriteSegments(PlainPart(text), g) == g(text)
  {
    if text != "" {
      RewriteOne(Segment(Plain, text), g);
    }
  }

  lemma RewriteThree(before: seq<Segment>, code: Segment, rest: seq<Segment>, g: string -> string)
    requires code.kind != Plain
    ensures RewriteSegments(before + [code] + rest, g)
         == RewriteSegments(before, g) + code.text + RewriteSegments(rest, g)
  {
    RewriteConcat(before + [code], rest, g);
    RewriteConcat(before, [code], g);
    RewriteOne(code, g);
  }

  lemma {:induction false} RewriteInline(text: string, inlines: seq<Span>, from: nat, g: string -> string)
    requires g("") == ""
    requires ValidSpans(inlines, from, |text|)
    ensures RewriteSegments(SplitInline(text, inlines, from), g) == AroundSpans(text, inlines, from, g)
    decreases inlines
  {
    if inlines == [] {
      RewritePlain(text[from..], g);
    } else {
      var m := inlines[0];
      SpanEndsInside(inlines, from, |text|);
      RewriteInline(text, inlines[1..], m.end, g);
      RewritePlain(text[from..m.start], g);
      RewriteThree(PlainPart(text[from..m.start]), Segment(InlineCode, text[m.start..m.end]),
                   SplitInline(text, inlines[1..], m.end), g);
    }
  }

  lemma {:induction false} AroundEmpty(inlines: seq<Span>, g: string -> string)
    requires g("") == ""
    requires ValidSpans(inlines, 0, 0)
    ensures AroundSpans("", inlines, 0, g) == ""
    decreases inlines
  {
    if inlines != [] {
      SpanEndsInside(inlines, 0, 0);
      AroundEmpty(inlines[1..], g);
    }
  }

  lemma RewriteText(text: string, inline: Matcher, g: string -> string)
    requires g("") == ""
    requires ValidMatcher(inline)
    ensures ValidSpans(inline(text), 0, |text|)
    ensures RewriteSegments(SplitText(text, inline), g) == AroundSpans(text, inline(text), 0, g)
  {
    if text == "" {
      AroundEmpty(inline(""), g);
    } else {
      RewriteInline(text, inline(text), 0, g);
    }
  }

  /** The code stands as it was, and g is applied to all text between. */
  lemma {:induction false} RewriteAroundCode(content: string, fences: seq<Span>, inline: Matcher, from: nat,
                                             g: string -> string)
    requires ValidSpans(fences, from, |content|) && ValidMatcher(inline) && g("") == ""
    ensures RewriteSegments(SplitAll(content, fences, inline, from), g) == AroundCode(content, fences, inline, from, g)
    decreases fences
  {
    if fences == [] {
      RewriteText(content[from..], inline, g);
    } else {
      var m := fences[0];
      SpanEndsInside(fences, from, |content|);
      var gap, code := content[from..m.start], Segment(CodeBlock, content[m.start..m.end]);
      RewriteAroundCode(content, fences[1..], inline, m.end, g);
      RewriteText(gap, inline, g);
      RewriteThree(SplitText(gap, inline), code, SplitAll(content, fences[1..], inline, m.end), g);
    }
  }

  /** For every replacement of targets: in the rewritten document all code stands as it was, and
      the text between is relinked. */
  method RewriteDocument(content: string, fences: seq<Span>, inline: Matcher, f: string -> string)
    returns (output: string)
    requires ValidSpans(fences, 0, |content|) && ValidMatcher(inline)
    ensures output == AroundCode(content, fences, inline, 0, Relink(f))
  {
    var segments := IterSegments(content, fences, inline);
    ghost var g := Relink(f);
    RelinkEmpty(f);
    RewriteAroundCode(content, fences, inline, 0, g);
    output := "";
    assert segments[0..] == segments;
    for i := 0 to |segments|
      invariant RewriteSegments(segments, g) == output + RewriteSegments(segments[i..], g)
    {
      var s := segments[i];
      assert segments[i..][0] == s && segments[i..][1..] == segments[i + 1..];
      Associative(output, Rewritten(s, g), RewriteSegments(segments[i + 1..], g));
      if s.kind == Plain {
        var text := RewriteLinksInSegment(s.text, f);
        RelinkIsRewrite(s.text, f);
        output := output + text;
      } else {
        output := output + s.text;
      }
    }
    assert segments[|segments|..] == [];
  }

  lemma RelinkEmpty(f: string -> string)
    ensures Relink(f)("") == ""
  {
    assert Scan("", 0) == [];
  }

  lemma RelinkIsRewrite(text: string, f: string -> string)
    ensures Lossless(text, Scan(text, 0), 0) && Relink(f)(text) == Rewrite(text, Scan(text, 0), 0, f)
  {
    ScanIsLossless(text, 0);
    RewriteChangesOnlyTargets(text, Scan(text, 0), 0, f);
  }

  lemma {:induction false} AroundIdentity(text: string, spans: seq<Span>, from: nat, g: string -> string)
    requires ValidSpans(spans, from, |text|) && forall t :: g(t) == t
    ensures AroundSpans(text, spans, from, g) == text[from..]
    decreases spans
  {
    if spans != [] {
      SpanEndsInside(spans, from, |text|);
      AroundIdentity(text, spans[1..], spans[0].end, g);
      CutThree(text, from, spans[0].start, spans[0].end);
    }
  }

  lemma {:induction false} AroundCodeIdentity(content: string, fences: seq<Span>, inline: Matcher, from: nat,
                                              g: string -> string)
    requires ValidSpans(fences, from, |content|) && ValidMatcher(inline) && forall t :: g(t) == t
    ensures AroundCode(content, fences, inline, from, g) == content[from..]
    decreases fences
  {
    if fences == [] {
      AroundIdentity(content[from..], inline(content[from..]), 0, g);
    } else {
      var m := fences[0];
      SpanEndsInside(fences, from, |content|);
      AroundIdentity(content[from..m.start], inline(content[from..m.start]), 0, g);
      AroundCodeIdentity(content, fences[1..], inline, m.end, g);
      CutThree(content, from, m.start, m.end);
    }
  }

  /** Rewriting a whole document with the identity on targets gives the document back. */
  lemma RewriteDocumentIdentity(content: string, fences: seq<Span>, inline: Matcher, f: string -> string)
    requires ValidSpans(fences, 0, |content|) && ValidMatcher(inline) && forall t :: f(t) == t
    ensures AroundCode(content, fences, inline, 0, Relink(f)) == content
  {
    forall t ensures Relink(f)(t) == t {
      RewriteIdentity(t, f);
      RelinkIsRewrite(t, f);
    }
    AroundCodeIdentity(content, fences, inline, 0, Relink(f));
    assert content[0..] == content;
  }
}
