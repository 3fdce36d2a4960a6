/** Cutting an agent's streamed text into sentence chunks for speech synthesis. */
module LiveFeeder {
  import opened Text

  const MIN_CHUNK := 10

  predicate IsDelimiter(c: char) {
    c == '.' || c == '。' || c == '!' || c == '！' || c == '?' || c == '？' || c == '\n'
  }

  /** The length of the leading run of non-delimiters. */
  function TextRun(s: string): (n: nat)
    ensures n <= |s|
  {
    if s == [] || IsDelimiter(s[0]) then 0 else 1 + TextRun(s[1..])
  }

  /** The length of the leading run of delimiters. */
  function DelimiterRun(s: string): (n: nat)
    ensures n <= |s|
    ensures s != [] && IsDelimiter(s[0]) ==> n > 0
  {
    if s == [] || !IsDelimiter(s[0]) then 0 else 1 + DelimiterRun(s[1..])
  }

  /** `re.split` on captured runs of delimiters: text, run, text, run, ..., text. */
  function Split(s: string): (parts: seq<string>)
    ensures |parts| % 2 == 1
    decreases |s|
  {
    var t := TextRun(s);
    if t == |s| then [s]
    else
      TextRunEnds(s);
      var d := DelimiterRun(s[t..]);
      [s[..t], s[t..t + d]] + Split(s[t + d..])
  }

  lemma {:induction false} TextRunEnds(s: string)
    ensures TextRun(s) < |s| ==> IsDelimiter(s[TextRun(s)])
    ensures forall i :: 0 <= i < TextRun(s) ==> !IsDelimiter(s[i])
  {
    if s != [] && !IsDelimiter(s[0]) {
      TextRunEnds(s[1..]);
      forall i | 0 <= i < TextRun(s) ensures !IsDelimiter(s[i]) {
        assert i == 0 || s[i] == s[1..][i - 1];
      }
    }
  }

  lemma {:induction false} DelimiterRunAll(s: string)
    ensures forall i :: 0 <= i < DelimiterRun(s) ==> IsDelimiter(s[i])
  {
    if s != [] && IsDelimiter(s[0]) {
      DelimiterRunAll(s[1..]);
      forall i | 0 <= i < DelimiterRun(s) ensures IsDelimiter(s[i]) {
        assert i == 0 || s[i] == s[1..][i - 1];
      }
    }
  }

  // ---------------------------------------------------------------- the feeder

  /** What has been cut off, blank chunks included, and what is held back. */
  datatype Cut = Cut(chunks: seq<string>, held: string)

  /** The inner loop from part i on: `temp` is the sentences gathered so far. */
  function Gather(parts: seq<string>, i: nat, temp: string): Cut
    requires i < |parts| && (|parts| - i) % 2 == 1
    decreases |parts| - i
  {
    if i == |parts| - 1 then Cut([], temp + parts[i])
    else
      var longer := temp + (parts[i] + parts[i + 1]);
      if |longer| >= MIN_CHUNK then
        var rest := Gather(parts, i + 2, "");
        Cut([longer] + rest.chunks, rest.held)
      else Gather(parts, i + 2, longer)
  }

  function FeedText(c: Cut, text: string): Cut {
    if text == "" then c
    else
      var cut := Gather(Split(c.held + text), 0, "");
      Cut(c.chunks + cut.chunks, cut.held)
  }

  /** The text of an agent's message chain, or None when the agent yields no chain. */
  function Feed(c: Cut, deltas: seq<Option<string>>): Cut {
    if deltas == [] then c
    else
      var before := Feed(c, deltas[..|deltas| - 1]);
      match deltas[|deltas| - 1]
      case None => before
      case Some(text) => FeedText(before, text)
  }

  /** Only chunks with a visible character are queued. */
  function Visible(chunks: seq<string>): seq<string> {
    if chunks == [] then []
    else Visible(chunks[..|chunks| - 1]) + (if Strip(chunks[|chunks| - 1]) != "" then [chunks[|chunks| - 1]] else [])
  }

  /** What is queued in all; `failed`: the agent raised an exception after the given deltas. */
  function Queued(deltas: seq<Option<string>>, failed: bool): seq<string> {
    var c := Feed(Cut([], ""), deltas);
    Visible(c.chunks) + (if !failed && Strip(c.held) != "" then [c.held] else [])
  }

  function Items(texts: seq<string>): seq<Option<string>> {
    seq(|texts|, i requires 0 <= i < |texts| => Some(texts[i]))
  }

  lemma ItemsAppend(texts: seq<string>, last: string)
    ensures Items(texts + [last]) == Items(texts) + [Some(last)]
  {
  }

  /** The texts, and one end marker after them. */
  method RunAgentFeeder(deltas: seq<Option<string>>, failed: bool) returns (queue: seq<Option<string>>)
    ensures queue == Items(Queued(deltas, failed)) + [None]
  {
    queue := [];
    var buffer := "";
    ghost var c := Cut([], "");
    for k := 0 to |deltas|
      invariant c == Feed(Cut([], ""), deltas[..k]) && buffer == c.held
      invariant queue == Items(Visible(c.chunks))
    {
      assert deltas[..k + 1][..k] == deltas[..k];
      if deltas[k].Some? && deltas[k].value != "" {
        buffer := buffer + deltas[k].value;
        ghost var before := c;
        c := FeedText(c, deltas[k].value);
        queue, buffer := CutSentences(Split(buffer), queue, before.chunks);
      }
    }
    assert deltas[..|deltas|] == deltas;
    if !failed && Strip(buffer) != "" {
      ItemsAppend(Visible(c.chunks), buffer);
      queue := queue + [Some(buffer)];
    } else {
      assert Visible(c.chunks) + [] == Visible(c.chunks);
    }
    queue := queue + [None];
  }

  /** Queue the gathered sentences once they are long enough. */
  method PutIfLong(queue: seq<Option<string>>, temp: string, ghost chunks: seq<string>)
      returns (q: seq<Option<string>>, left: string, ghost cut: seq<string>)
    requires queue == Items(Visible(chunks))
    ensures q == Items(Visible(cut))
    ensures (cut, left) == if |temp| >= MIN_CHUNK then (chunks + [temp], "") else (chunks, temp)
  {
    q, left, cut := queue, temp, chunks;
    if |temp| >= MIN_CHUNK {
      VisibleStep(chunks, temp);
      ItemsAppend(Visible(chunks), temp);
      if Strip(temp) != "" {
        q := queue + [Some(temp)];
      }
      cut := chunks + [temp];
      left := "";
    }
  }

  /** The inner loop over the parts of the buffer. */
  method CutSentences(parts: seq<string>, queue: seq<Option<string>>, ghost chunks: seq<string>)
    returns (q: seq<Option<string>>, held: string)
    requires |parts| % 2 == 1 && queue == Items(Visible(chunks))
    ensures q == Items(Visible(chunks + Gather(parts, 0, "").chunks)) && held == Gather(parts, 0, "").held
  {
    q := queue;
    ghost var cut, goal := chunks, Gather(parts, 0, "");
    var temp := "";
    var i := 0;
    while i < |parts| - 1
      invariant 0 <= i < |parts| && (|parts| - i) % 2 == 1
      invariant chunks + goal.chunks == cut + Gather(parts, i, temp).chunks && goal.held == Gather(parts, i, temp).held
      invariant q == Items(Visible(cut))
    {
      temp := temp + (parts[i] + parts[i + 1]);
      Associative(cut, [temp], Gather(parts, i + 2, "").chunks);
      q, temp, cut := PutIfLong(q, temp, cut);
      i := i + 2;
    }
    assert cut + [] == cut;
    held := temp + parts[|parts| - 1];
  }

  lemma VisibleStep(chunks: seq<string>, last: string)
    ensures Visible(chunks + [last]) == if Strip(last) != "" then Visible(chunks) + [last] else Visible(chunks)
  {
    assert (chunks + [last])[..|chunks|] == chunks;
  }

  // ---------------------------------------------------------------- nothing is lost

  lemma CutTwice(s: string, a: nat, b: nat)
    requires a <= b <= |s|
    ensures s == s[..a] + (s[a..b] + s[b..])
  {
  }

  lemma ConcatTwo(a: string, b: string, rest: seq<string>)
    ensures Concat([a, b] + rest) == a + (b + Concat(rest))
  {
    var parts := [a, b] + rest;
    assert parts[1..] == [b] + rest && parts[1..][1..] == rest;
  }

  lemma {:induction false} SplitConcat(s: string)
    ensures Concat(Split(s)) == s
    decreases |s|
  {
    var t := TextRun(s);
    if t == |s| {
      assert [s][1..] == [];
      assert s + "" == s;
    } else {
      TextRunEnds(s);
      var d := DelimiterRun(s[t..]);
      SplitConcat(s[t + d..]);
      ConcatTwo(s[..t], s[t..t + d], Split(s[t + d..]));
      CutTwice(s, t, t + d);
    }
  }

  lemma {:induction false} GatherConcat(parts: seq<string>, i: nat, temp: string)
    requires i < |parts| && (|parts| - i) % 2 == 1
    ensures var c := Gather(parts, i, temp); Concat(c.chunks) + c.held == temp + Concat(parts[i..])
    decreases |parts| - i
  {
    if i == |parts| - 1 {
      assert parts[i..][1..] == [];
      assert parts[i] + "" == parts[i];
    } else {
      var longer := temp + (parts[i] + parts[i + 1]);
      assert parts[i..] == [parts[i], parts[i + 1]] + parts[i + 2..];
      ConcatTwo(parts[i], parts[i + 1], parts[i + 2..]);
      Associative(parts[i], parts[i + 1], Concat(parts[i + 2..]));
      Associative(temp, parts[i] + parts[i + 1], Concat(parts[i + 2..]));
      if |longer| >= MIN_CHUNK {
        GatherConcat(parts, i + 2, "");
        var rest := Gather(parts, i + 2, "");
        assert ([longer] + rest.chunks)[1..] == rest.chunks;
        Associative(longer, Concat(rest.chunks), rest.held);
      } else {
        GatherConcat(parts, i + 2, longer);
      }
    }
  }

  ghost function AllText(deltas: seq<Option<string>>): string {
    if deltas == [] then ""
    else AllText(deltas[..|deltas| - 1]) + (match deltas[|deltas| - 1] case None => "" case Some(t) => t)
  }

  lemma FeedTextConserves(c: Cut, text: string)
    ensures var r := FeedText(c, text); Concat(r.chunks) + r.held == Concat(c.chunks) + c.held + text
  {
    if text != "" {
      var s := c.held + text;
      SplitConcat(s);
      GatherConcat(Split(s), 0, "");
      var cut := Gather(Split(s), 0, "");
      assert Split(s)[0..] == Split(s);
      ConcatAppend(c.chunks, cut.chunks);
      Associative(Concat(c.chunks), Concat(cut.chunks), cut.held);
      Associative(Concat(c.chunks), c.held, text);
      assert "" + s == s;
    }
  }

  /** Conservation: the chunks, the dropped blank ones in their places, and what is held back
      are the whole input in order. */
  lemma {:induction false} FeedConserves(deltas: seq<Option<string>>)
    ensures var c := Feed(Cut([], ""), deltas); Concat(c.chunks) + c.held == AllText(deltas)
  {
    if deltas != [] {
      var before := Feed(Cut([], ""), deltas[..|deltas| - 1]);
      FeedConserves(deltas[..|deltas| - 1]);
      if deltas[|deltas| - 1].Some? {
        FeedTextConserves(before, deltas[|deltas| - 1].value);
      }
    }
  }

  // ---------------------------------------------------------------- the shape of chunks

  /** A run of delimiters ends right before position j. */
  ghost predicate SentenceEnds(s: string, j: int) {
    0 < j < |s| && IsDelimiter(s[j - 1]) && !IsDelimiter(s[j])
  }

  /** At least ten characters, ending in a delimiter, and no earlier sentence end would do. */
  ghost predicate GoodChunk(s: string) {
    |s| >= MIN_CHUNK && IsDelimiter(s[|s| - 1]) &&
    forall j :: SentenceEnds(s, j) ==> j < MIN_CHUNK
  }

  /** What is held back contains no delimiter from its tenth character on. */
  ghost predicate Waiting(held: string) {
    forall i :: 0 <= i < |held| && IsDelimiter(held[i]) ==> i < MIN_CHUNK - 1
  }

  ghost predicate NoDelimiters(s: string) {
    forall i :: 0 <= i < |s| ==> !IsDelimiter(s[i])
  }

  ghost predicate AllDelimiters(s: string) {
    forall i :: 0 <= i < |s| ==> IsDelimiter(s[i])
  }

  /** Even parts hold no delimiter; odd parts are non-empty and hold nothing else. */
  ghost predicate Alternating(parts: seq<string>) {
    forall i :: 0 <= i < |parts| ==>
      if i % 2 == 0 then NoDelimiters(parts[i]) else parts[i] != "" && AllDelimiters(parts[i])
  }

  lemma {:induction false} SplitAlternates(s: string)
    ensures Alternating(Split(s))
    decreases |s|
  {
    TextRunEnds(s);
    var t := TextRun(s);
    if t < |s| {
      var d := DelimiterRun(s[t..]);
      DelimiterRunAll(s[t..]);
      SplitAlternates(s[t + d..]);
      var run, rest := s[t..t + d], Split(s[t + d..]);
      forall i | 0 <= i < |run| ensures IsDelimiter(run[i]) {
        assert run[i] == s[t..][i];
      }
      AlternatingCons(s[..t], run, rest);
    }
  }

  lemma AlternatingCons(sentence: string, run: string, rest: seq<string>)
    requires NoDelimiters(sentence) && run != "" && AllDelimiters(run) && Alternating(rest)
    ensures Alternating([sentence, run] + rest)
  {
    var all := [sentence, run] + rest;
    forall i | 2 <= i < |all| ensures all[i] == rest[i - 2] && i % 2 == (i - 2) % 2 {
    }
  }

  lemma SentenceShape(temp: string, sentence: string, run: string)
    requires |temp| < MIN_CHUNK && run != ""
    requires NoDelimiters(sentence) && AllDelimiters(run)
    ensures var longer := temp + (sentence + run);
            |longer| >= MIN_CHUNK ==> GoodChunk(longer)
  {
    var longer := temp + (sentence + run);
    var n := |temp| + |sentence|;
    assert forall i :: n <= i < |longer| ==> longer[i] == run[i - n];
    assert forall i :: |temp| <= i < n ==> longer[i] == sentence[i - |temp|];
  }

  lemma {:induction false} GatherShapes(parts: seq<string>, i: nat, temp: string)
    requires Alternating(parts) && |temp| < MIN_CHUNK
    requires i < |parts| && (|parts| - i) % 2 == 1 && i % 2 == 0
    ensures var c := Gather(parts, i, temp);
            (forall k :: 0 <= k < |c.chunks| ==> GoodChunk(c.chunks[k])) && Waiting(c.held)
    decreases |parts| - i
  {
    if i < |parts| - 1 {
      var longer := temp + (parts[i] + parts[i + 1]);
      assert (i + 1) % 2 == 1;
      SentenceShape(temp, parts[i], parts[i + 1]);
      if |longer| >= MIN_CHUNK {
        GatherShapes(parts, i + 2, "");
      } else {
        GatherShapes(parts, i + 2, longer);
      }
    } else {
      HeldShape(temp, parts[i]);
    }
  }

  lemma HeldShape(temp: string, tail: string)
    requires |temp| < MIN_CHUNK && NoDelimiters(tail)
    ensures Waiting(temp + tail)
  {
    assert forall i :: |temp| <= i < |temp + tail| ==> (temp + tail)[i] == tail[i - |temp|];
  }

  /** Promptness and minimality: after every delta, each chunk cut off is a shortest run of whole
      sentences with ten characters, and no such run is held back. */
  lemma {:induction false} FeedShapes(deltas: seq<Option<string>>)
    ensures var c := Feed(Cut([], ""), deltas);
            (forall i :: 0 <= i < |c.chunks| ==> GoodChunk(c.chunks[i])) && Waiting(c.held)
  {
    if deltas != [] {
      var before := Feed(Cut([], ""), deltas[..|deltas| - 1]);
      FeedShapes(deltas[..|deltas| - 1]);
      if deltas[|deltas| - 1].Some? && deltas[|deltas| - 1].value != "" {
        var s := before.held + deltas[|deltas| - 1].value;
        SplitAlternates(s);
        GatherShapes(Split(s), 0, "");
      }
    }
  }

  // ---------------------------------------------------------------- exactly where the text is cut

  const DELIMITERS: string := ['.', '。', '!', '！', '?', '？', '\n']

  /** A run of delimiters ends at j. */
  ghost predicate EndsAt(s: string, j: nat) {
    0 < j <= |s| && s[j - 1] in DELIMITERS && (j < |s| ==> s[j] !in DELIMITERS)
  }

  /** The first end of a sentence at ten characters or later cuts a chunk off; then again, and what has
      no such end is held back.  This determines the chunks. */
  ghost predicate IsCut(s: string, chunks: seq<string>, held: string)
    decreases chunks
  {
    if chunks == [] then held == s && forall j: nat :: EndsAt(s, j) ==> j < 10
    else
      var n := |chunks[0]|;
      && 10 <= n <= |s| && chunks[0] == s[..n] && EndsAt(s, n)
      && (forall j: nat :: EndsAt(s, j) && j < n ==> j < 10)
      && IsCut(s[n..], chunks[1..], held)
  }

  lemma DelimitersExact(c: char)
    ensures IsDelimiter(c) <==> c in DELIMITERS
  {
    assert DELIMITERS[0] == '.' && DELIMITERS[1] == '。' && DELIMITERS[2] == '!' && DELIMITERS[3] == '！';
    assert DELIMITERS[4] == '?' && DELIMITERS[5] == '？' && DELIMITERS[6] == '\n';
  }

  ghost predicate StartsPlain(s: string) {
    s == "" || !IsDelimiter(s[0])
  }

  lemma {:induction false} DelimiterRunEnds(s: string)
    ensures StartsPlain(s[DelimiterRun(s)..])
  {
    if s != [] && IsDelimiter(s[0]) {
      DelimiterRunEnds(s[1..]);
      assert s[DelimiterRun(s)..] == s[1..][DelimiterRun(s[1..])..];
    }
  }

  /** The text after every run begins with no delimiter. */
  ghost predicate Separated(parts: seq<string>)
    decreases parts
  {
    |parts| < 3 || (StartsPlain(Concat(parts[2..])) && Separated(parts[2..]))
  }

  lemma {:induction false} SplitSeparates(s: string)
    ensures Separated(Split(s))
    decreases |s|
  {
    var t := TextRun(s);
    if t < |s| {
      TextRunEnds(s);
      var d := DelimiterRun(s[t..]);
      DelimiterRunEnds(s[t..]);
      SplitSeparates(s[t + d..]);
      SplitConcat(s[t + d..]);
      assert s[t..][d..] == s[t + d..];
      assert Split(s)[2..] == Split(s[t + d..]);
    }
  }

  /** Between the text gathered and the end of the next sentence no sentence ends. */
  lemma NextEnd(temp: string, sentence: string, run: string, tail: string)
    requires NoDelimiters(sentence) && AllDelimiters(run) && run != "" && StartsPlain(tail)
    ensures var n := |temp| + |sentence| + |run|;
            var s := temp + (sentence + run) + tail;
            EndsAt(s, n) && forall j: nat :: EndsAt(s, j) && j < n ==> j <= |temp|
  {
    var s := temp + (sentence + run) + tail;
    var m, n := |temp| + |sentence|, |temp| + |sentence| + |run|;
    forall c ensures IsDelimiter(c) <==> c in DELIMITERS {
      DelimitersExact(c);
    }
    assert s[n - 1] == run[|run| - 1];
    assert tail != "" ==> s[n] == tail[0];
    forall j | |temp| < j < n ensures !EndsAt(s, j) {
      if j <= m {
        assert s[j - 1] == sentence[j - 1 - |temp|];
      } else {
        assert s[j] == run[j - m];
      }
    }
  }

  lemma NoEnd(temp: string, tail: string)
    requires NoDelimiters(tail)
    ensures forall j: nat :: EndsAt(temp + tail, j) ==> j <= |temp|
  {
    forall j | |temp| < j <= |temp + tail| ensures !EndsAt(temp + tail, j) {
      DelimitersExact((temp + tail)[j - 1]);
      assert (temp + tail)[j - 1] == tail[j - 1 - |temp|];
    }
  }

  ghost predicate Gathers(parts: seq<string>, i: nat, temp: string)
    requires i < |parts| && (|parts| - i) % 2 == 1
  {
    IsCut(temp + Concat(parts[i..]), Gather(parts, i, temp).chunks, Gather(parts, i, temp).held)
  }

  lemma {:induction false} GatherIsCut(parts: seq<string>, i: nat, temp: string)
    requires i < |parts| && (|parts| - i) % 2 == 1 && i % 2 == 0
    requires Alternating(parts) && |temp| < MIN_CHUNK && Separated(parts[i..])
    ensures Gathers(parts, i, temp)
    decreases |parts| - i
  {
    if i == |parts| - 1 {
      LastPart(parts, temp);
    } else {
      var longer := temp + (parts[i] + parts[i + 1]);
      PairAt(parts, i);
      NextParts(parts, i, temp);
      if |longer| >= MIN_CHUNK {
        GatherIsCut(parts, i + 2, "");
        GatherLong(parts, i, temp);
      } else {
        GatherIsCut(parts, i + 2, longer);
      }
    }
  }

  lemma GatherLong(parts: seq<string>, i: nat, temp: string)
    requires i + 2 < |parts| && (|parts| - i) % 2 == 1
    requires NoDelimiters(parts[i]) && AllDelimiters(parts[i + 1]) && parts[i + 1] != ""
    requires StartsPlain(Concat(parts[i + 2..])) && Gathers(parts, i + 2, "")
    requires |temp| < 10 <= |temp + (parts[i] + parts[i + 1])|
    ensures Gathers(parts, i, temp)
  {
    NextParts(parts, i, temp);
    NextCut(temp, parts[i], parts[i + 1], Concat(parts[i + 2..]), Gather(parts, i + 2, ""));
  }

  lemma PairAt(parts: seq<string>, i: nat)
    requires Alternating(parts) && i % 2 == 0 && i + 1 < |parts|
    ensures NoDelimiters(parts[i]) && AllDelimiters(parts[i + 1]) && parts[i + 1] != ""
  {
    assert (i + 1) % 2 == 1;
  }

  lemma LastPart(parts: seq<string>, temp: string)
    requires Alternating(parts) && |parts| % 2 == 1 && |temp| < 10
    ensures Gathers(parts, |parts| - 1, temp)
  {
    var last := parts[|parts| - 1];
    assert (|parts| - 1) % 2 == 0;
    assert parts[|parts| - 1..] == [last] && [last][1..] == [];
    assert Concat([last]) == last + "" == last;
    NoEnd(temp, last);
  }

  lemma NextCut(temp: string, sentence: string, run: string, tail: string, rest: Cut)
    requires NoDelimiters(sentence) && AllDelimiters(run) && run != "" && StartsPlain(tail)
    requires |temp| < 10 <= |temp + (sentence + run)| && IsCut("" + tail, rest.chunks, rest.held)
    ensures var longer := temp + (sentence + run); IsCut(longer + tail, [longer] + rest.chunks, rest.held)
  {
    NextEnd(temp, sentence, run, tail);
    CutFirst(temp + (sentence + run), tail, rest);
  }

  lemma NextParts(parts: seq<string>, i: nat, temp: string)
    requires i + 2 < |parts|
    ensures temp + Concat(parts[i..]) == temp + (parts[i] + parts[i + 1]) + Concat(parts[i + 2..])
    ensures Separated(parts[i..]) ==> StartsPlain(Concat(parts[i + 2..])) && Separated(parts[i + 2..])
  {
    assert parts[i..] == [parts[i], parts[i + 1]] + parts[i + 2..] && parts[i..][2..] == parts[i + 2..];
    ConcatTwo(parts[i], parts[i + 1], parts[i + 2..]);
    Associative(parts[i], parts[i + 1], Concat(parts[i + 2..]));
    Associative(temp, parts[i] + parts[i + 1], Concat(parts[i + 2..]));
  }

  lemma CutFirst(chunk: string, tail: string, rest: Cut)
    requires |chunk| >= 10 && IsCut("" + tail, rest.chunks, rest.held)
    requires EndsAt(chunk + tail, |chunk|) && forall j: nat :: EndsAt(chunk + tail, j) && j < |chunk| ==> j < 10
    ensures IsCut(chunk + tail, [chunk] + rest.chunks, rest.held)
  {
    assert "" + tail == tail && (chunk + tail)[|chunk|..] == tail && (chunk + tail)[..|chunk|] == chunk;
    assert ([chunk] + rest.chunks)[1..] == rest.chunks;
  }

  /** Each delta cuts the text held back and the new text exactly there. */
  lemma FeedCuts(deltas: seq<Option<string>>, text: string)
    requires text != ""
    ensures var before, after := Feed(Cut([], ""), deltas), Feed(Cut([], ""), deltas + [Some(text)]);
            && before.chunks <= after.chunks
            && IsCut(before.held + text, after.chunks[|before.chunks|..], after.held)
  {
    var before := Feed(Cut([], ""), deltas);
    var s := before.held + text;
    assert (deltas + [Some(text)])[..|deltas|] == deltas;
    SplitConcat(s);
    SplitAlternates(s);
    SplitSeparates(s);
    assert Split(s)[0..] == Split(s) && "" + s == s;
    GatherIsCut(Split(s), 0, "");
    var cut := Gather(Split(s), 0, "");
    assert (before.chunks + cut.chunks)[|before.chunks|..] == cut.chunks;
  }

  /** There is only one way to cut a text like that. */
  lemma {:induction false} CutOnce(s: string, chunks: seq<string>, held: string, chunks': seq<string>, held': string)
    requires IsCut(s, chunks, held) && IsCut(s, chunks', held')
    ensures chunks == chunks' && held == held'
    decreases chunks
  {
    assert chunks != [] ==> EndsAt(s, |chunks[0]|);
    assert chunks' != [] ==> EndsAt(s, |chunks'[0]|);
    if chunks != [] {
      assert |chunks[0]| == |chunks'[0]|;
      CutOnce(s[|chunks[0]|..], chunks[1..], held, chunks'[1..], held');
      assert chunks == [chunks[0]] + chunks[1..] && chunks' == [chunks'[0]] + chunks'[1..];
    }
  }

  // ---------------------------------------------------------------- the queue

  /** Whether `queue` is the chunks in order, less the blank ones. */
  ghost predicate DropsOnlyBlank(chunks: seq<string>, queue: seq<string>)
    decreases chunks
  {
    if chunks == [] then queue == []
    else if Blank(chunks[0]) then DropsOnlyBlank(chunks[1..], queue)
    else queue != [] && queue[0] == chunks[0] && DropsOnlyBlank(chunks[1..], queue[1..])
  }

  lemma {:induction false} DropsAppend(chunks: seq<string>, queue: seq<string>, last: string)
    requires DropsOnlyBlank(chunks, queue)
    ensures DropsOnlyBlank(chunks + [last], if Blank(last) then queue else queue + [last])
    decreases chunks
  {
    if chunks == [] {
      assert [last][1..] == [] && ([] + [last]) == [last];
      if !Blank(last) {
        assert (queue + [last])[1..] == [];
      }
    } else {
      assert (chunks + [last])[1..] == chunks[1..] + [last];
      if Blank(chunks[0]) {
        DropsAppend(chunks[1..], queue, last);
      } else {
        DropsAppend(chunks[1..], queue[1..], last);
        assert (queue + [last])[1..] == queue[1..] + [last];
      }
    }
  }

  lemma {:induction false} VisibleDropsBlank(chunks: seq<string>)
    ensures forall v :: v in Visible(chunks) ==> v in chunks
    ensures DropsOnlyBlank(chunks, Visible(chunks))
  {
    if chunks != [] {
      var p, last := chunks[..|chunks| - 1], chunks[|chunks| - 1];
      VisibleDropsBlank(p);
      StripEmptyIff(last);
      DropsAppend(p, Visible(p), last);
      assert p + [last] == chunks;
      if Blank(last) {
        assert Visible(chunks) == Visible(p);
      }
    }
  }

  /** What is queued is the whole text cut in pieces, of which only blank ones are missing; after a
      failure also what was held back then, which has no sentence of ten characters. */
  lemma QueueConserves(deltas: seq<Option<string>>, failed: bool) returns (pieces: seq<string>, held: string)
    ensures Cut(pieces, held) == Feed(Cut([], ""), deltas)
    ensures Concat(pieces) + held == AllText(deltas) && Waiting(held)
    ensures DropsOnlyBlank(pieces + (if failed then [] else [held]), Queued(deltas, failed))
  {
    var c := Feed(Cut([], ""), deltas);
    pieces, held := c.chunks, c.held;
    FeedConserves(deltas);
    FeedShapes(deltas);
    VisibleDropsBlank(c.chunks);
    StripEmptyIff(c.held);
    assert Visible(c.chunks) + [] == Visible(c.chunks) && pieces + [] == pieces;
    if !failed {
      DropsAppend(c.chunks, Visible(c.chunks), c.held);
    }
  }

  /** Every queued text but the last is a shortest run of whole sentences with at least ten
      characters; after a failure so is the last. */
  lemma QueueShapes(deltas: seq<Option<string>>, failed: bool, i: nat)
    requires i < |Queued(deltas, failed)| - (if failed then 0 else 1)
    ensures GoodChunk(Queued(deltas, failed)[i])
  {
    var c := Feed(Cut([], ""), deltas);
    FeedShapes(deltas);
    VisibleDropsBlank(c.chunks);
    assert Queued(deltas, failed)[i] == Visible(c.chunks)[i];
    assert Visible(c.chunks)[i] in Visible(c.chunks);
  }
}
