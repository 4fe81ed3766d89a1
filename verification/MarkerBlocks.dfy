/** Generated blocks in Markdown documents: the text between a START and an END marker.

    A document has a block exactly when it has one marker of each kind, in this order; then
    only the text between the two is replaced. */
module MarkerBlocks {
  import opened Characters
  import opened Sequences

  function StartMarker(name: string): string { "<!-- " + name + ":START -->" }
  function EndMarker(name: string): string { "<!-- " + name + ":END -->" }

  predicate At(text: string, m: string, i: nat) {
    i + |m| <= |text| && text[i..i + |m|] == m
  }

  /** `text.count(m)` from position i on: occurrences that do not overlap. */
  function CountFrom(text: string, m: string, i: nat): nat
    requires m != ""
    decreases |text| - i
  {
    if i + |m| > |text| then 0
    else if At(text, m, i) then 1 + CountFrom(text, m, i + |m|)
    else CountFrom(text, m, i + 1)
  }

  /** `text.index(m)` from position i on. */
  function IndexFrom(text: string, m: string, i: nat): (r: Option<nat>)
    ensures r.Some? ==> i <= r.value && At(text, m, r.value)
    decreases |text| - i
  {
    if At(text, m, i) then Some(i)
    else if i >= |text| then None
    else IndexFrom(text, m, i + 1)
  }

  function StripLeft(s: string): string {
    if s != "" && IsSpace(s[0]) then StripLeft(s[1..]) else s
  }

  function StripRight(s: string): string {
    if s != "" && IsSpace(s[|s| - 1]) then StripRight(s[..|s| - 1]) else s
  }

  function Strip(s: string): string { StripRight(StripLeft(s)) }

  ghost predicate AllSpace(s: string) { forall i :: 0 <= i < |s| ==> IsSpace(s[i]) }

  /** Stripping leaves the part from the first character that is no whitespace to the last
      one, and nothing of a text that has none. */
  lemma StripMeans(s: string) returns (i: nat, j: nat)
    ensures i <= j <= |s| && Strip(s) == s[i..j] && AllSpace(s[..i]) && AllSpace(s[j..])
    ensures i < j ==> !IsSpace(s[i]) && !IsSpace(s[j - 1])
  {
    i := LeftSpace(s);
    var k := RightSpace(s[i..]);
    j := i + k;
    assert s[i..][..k] == s[i..j] && s[i..][k..] == s[j..];
  }

  lemma {:induction false} LeftSpace(s: string) returns (i: nat)
    ensures i <= |s| && StripLeft(s) == s[i..] && AllSpace(s[..i]) && (i < |s| ==> !IsSpace(s[i]))
  {
    i := 0;
    if s != "" && IsSpace(s[0]) {
      var k := LeftSpace(s[1..]);
      i := k + 1;
      assert s[1..][k..] == s[i..];
      forall m | 0 <= m < i ensures IsSpace(s[m]) { assert m > 0 ==> s[m] == s[1..][..k][m - 1]; }
    }
  }

  lemma {:induction false} RightSpace(s: string) returns (j: nat)
    ensures j <= |s| && StripRight(s) == s[..j] && AllSpace(s[j..]) && (j > 0 ==> !IsSpace(s[j - 1]))
  {
    j := |s|;
    if s != "" && IsSpace(s[|s| - 1]) {
      var init := s[..|s| - 1];
      j := RightSpace(init);
      assert init[..j] == s[..j];
      forall m | j <= m < |s| ensures IsSpace(s[m]) { assert m < |s| - 1 ==> s[m] == init[j..][m - j]; }
    }
  }

  /** `replace_block`; `None` stands for the DocumentationSyncError. */
  function ReplaceBlock(text: string, name: string, body: string): Option<string>
  {
    var start, end := StartMarker(name), EndMarker(name);
    if CountFrom(text, start, 0) != 1 || CountFrom(text, end, 0) != 1 then None
    else
      match (IndexFrom(text, start, 0), IndexFrom(text, end, 0))
      case (Some(i), Some(j)) =>
        if i + |start| > j then None
        else Some(text[..i + |start|] + "\n" + Strip(body) + "\n" + text[j..])
      case (_, _) => None
  }

  // ----- occurrences -----------------------------------------------------------------

  /** Non-empty, on one line, and with '<' only in front: it cannot overlap itself. */
  predicate MarkerText(m: string) {
    m != "" && m[0] == '<' && '<' !in m[1..] && '\n' !in m
  }

  predicate ProperName(name: string) { '<' !in name && '\n' !in name }

  lemma MarkersAreProper(name: string)
    requires ProperName(name)
    ensures MarkerText(StartMarker(name)) && MarkerText(EndMarker(name))
  {
    assert StartMarker(name)[1..] == "!-- " + name + ":START -->";
    assert EndMarker(name)[1..] == "!-- " + name + ":END -->";
  }

  ghost predicate Absent(text: string, m: string) { forall j: nat :: !At(text, m, j) }

  ghost predicate OnlyAt(text: string, m: string, i: nat) {
    At(text, m, i) && forall j: nat :: At(text, m, j) ==> j == i
  }

  ghost predicate OnlyAtFrom(text: string, m: string, k: nat, i: nat) {
    && k <= i && At(text, m, i)
    && forall j: nat :: k <= j && At(text, m, j) ==> j == i
  }

  lemma NoOverlap(text: string, m: string, i: nat, j: nat)
    requires MarkerText(m) && At(text, m, i) && i < j < i + |m|
    ensures !At(text, m, j)
  {
    assert text[j] == text[i..i + |m|][j - i] == m[j - i] == m[1..][j - i - 1];
  }

  lemma {:induction false} CountZero(text: string, m: string, k: nat)
    requires MarkerText(m)
    ensures CountFrom(text, m, k) == 0 <==> forall j: nat :: k <= j ==> !At(text, m, j)
    decreases |text| - k
  {
    if k + |m| <= |text| && !At(text, m, k) {
      CountZero(text, m, k + 1);
    }
  }

  lemma {:induction false} CountOne(text: string, m: string, k: nat)
    requires MarkerText(m)
    ensures CountFrom(text, m, k) == 1 <==> exists i: nat :: OnlyAtFrom(text, m, k, i)
    decreases |text| - k
  {
    if k + |m| > |text| {
    } else if At(text, m, k) {
      CountZero(text, m, k + |m|);
      forall j: nat | k < j < k + |m| ensures !At(text, m, j) { NoOverlap(text, m, k, j); }
      if CountFrom(text, m, k + |m|) == 0 { assert OnlyAtFrom(text, m, k, k); }
    } else {
      CountOne(text, m, k + 1);
      if CountFrom(text, m, k + 1) == 1 {
        var i: nat :| OnlyAtFrom(text, m, k + 1, i);
        assert OnlyAtFrom(text, m, k, i);
      }
      if i: nat :| OnlyAtFrom(text, m, k, i) {
        assert OnlyAtFrom(text, m, k + 1, i);
      }
    }
  }

  lemma {:induction false} IndexOfOnly(text: string, m: string, k: nat, i: nat)
    requires OnlyAtFrom(text, m, k, i)
    ensures IndexFrom(text, m, k) == Some(i)
    decreases i - k
  {
    if k < i { IndexOfOnly(text, m, k + 1, i); }
  }

  /** Across a newline a one-line marker cannot occur. */
  lemma AtSplit(a: string, b: string, m: string, k: nat)
    requires MarkerText(m)
    ensures At(a + "\n" + b, m, k) <==>
              (k + |m| <= |a| && At(a, m, k)) || (k >= |a| + 1 && At(b, m, k - |a| - 1))
  {
    var t := a + "\n" + b;
    if k + |m| <= |a| {
      assert t[k..k + |m|] == a[k..k + |m|];
    } else if k >= |a| + 1 {
      if k + |m| <= |t| { assert t[k..k + |m|] == b[k - |a| - 1..k - |a| - 1 + |m|]; }
    } else {
      assert t[|a|] == '\n';
    }
  }

  // ----- the shape of a document ---------------------------------------------------------

  /** One START marker at i and one END marker at j, in this order. */
  ghost predicate Block(text: string, name: string, i: nat, j: nat) {
    && OnlyAt(text, StartMarker(name), i) && OnlyAt(text, EndMarker(name), j)
    && i + |StartMarker(name)| <= j
  }

  function Spliced(text: string, name: string, i: nat, j: nat, block: string): string
    requires i + |StartMarker(name)| <= j <= |text|
  {
    text[..i + |StartMarker(name)|] + "\n" + block + "\n" + text[j..]
  }

  /** Replacement succeeds exactly on documents with one ordered marker pair, and then
      rewrites what lies between the markers and nothing else. */
  lemma ReplaceMeaning(text: string, name: string, body: string)
    requires ProperName(name)
    ensures ReplaceBlock(text, name, body).Some? <==> exists i: nat, j: nat :: Block(text, name, i, j)
    ensures forall i: nat, j: nat :: Block(text, name, i, j) ==>
              ReplaceBlock(text, name, body) == Some(Spliced(text, name, i, j, Strip(body)))
  {
    MarkersAreProper(name);
    var start, end := StartMarker(name), EndMarker(name);
    CountOne(text, start, 0);
    CountOne(text, end, 0);
    forall i: nat, j: nat | Block(text, name, i, j)
      ensures ReplaceBlock(text, name, body) == Some(Spliced(text, name, i, j, Strip(body)))
    {
      assert OnlyAtFrom(text, start, 0, i) && OnlyAtFrom(text, end, 0, j);
      IndexOfOnly(text, start, 0, i);
      IndexOfOnly(text, end, 0, j);
    }
    if ReplaceBlock(text, name, body).Some? {
      var i: nat :| OnlyAtFrom(text, start, 0, i);
      var j: nat :| OnlyAtFrom(text, end, 0, j);
      IndexOfOnly(text, start, 0, i);
      IndexOfOnly(text, end, 0, j);
      assert Block(text, name, i, j);
    }
  }

  ghost predicate FreeOfMarkers(block: string, name: string) {
    Absent(block, StartMarker(name)) && Absent(block, EndMarker(name))
  }

  lemma AtHead(text: string, m: string, n: nat, k: nat)
    requires n <= |text| && k + |m| <= n
    ensures At(text[..n], m, k) <==> At(text, m, k)
  {
    assert text[..n][k..k + |m|] == text[k..k + |m|];
  }

  lemma AtTail(text: string, m: string, n: nat, k: nat)
    requires n <= |text|
    ensures At(text[n..], m, k) <==> At(text, m, n + k)
  {
    if n + k + |m| <= |text| { assert text[n..][k..k + |m|] == text[n + k..n + k + |m|]; }
  }

  lemma SplicedParts(text: string, name: string, i: nat, j: nat, block: string)
    requires i + |StartMarker(name)| <= j <= |text|
    ensures Spliced(text, name, i, j, block)
            == text[..i + |StartMarker(name)|] + "\n" + (block + "\n" + text[j..])
  {
  }

  lemma OccurrencesAfterSplice(text: string, name: string, i: nat, j: nat, block: string, m: string, k: nat)
    requires Block(text, name, i, j) && MarkerText(m)
    ensures var n := i + |StartMarker(name)|;
            At(Spliced(text, name, i, j, block), m, k) <==>
              || (k + |m| <= n && At(text, m, k))
              || (k >= n + 1 && At(block, m, k - (n + 1)))
              || (k >= n + |block| + 2 && At(text, m, k - (n + |block| + 2) + j))
  {
    var n := i + |StartMarker(name)|;
    SplicedParts(text, name, i, j, block);
    OccurrencesInThreeParts(text, n, j, block, m, k);
  }

  lemma OccurrencesInThreeParts(text: string, n: nat, j: nat, block: string, m: string, k: nat)
    requires n <= j <= |text| && MarkerText(m)
    ensures At(text[..n] + "\n" + (block + "\n" + text[j..]), m, k) <==>
              || (k + |m| <= n && At(text, m, k))
              || (k >= n + 1 && At(block, m, k - (n + 1)))
              || (k >= n + |block| + 2 && At(text, m, k - (n + |block| + 2) + j))
  {
    AtSplit(text[..n], block + "\n" + text[j..], m, k);
    if k + |m| <= n { AtHead(text, m, n, k); }
    if k >= n + 1 {
      AtSplit(block, text[j..], m, k - n - 1);
      if k >= n + |block| + 2 { AtTail(text, m, j, k - n - |block| - 2); }
    }
  }

  /** A block free of the markers leaves exactly one ordered pair behind. */
  lemma SplicedIsBlock(text: string, name: string, i: nat, j: nat, block: string)
    requires ProperName(name) && Block(text, name, i, j) && FreeOfMarkers(block, name)
    ensures Block(Spliced(text, name, i, j, block), name, i, i + |StartMarker(name)| + |block| + 2)
  {
    MarkersAreProper(name);
    var start, end := StartMarker(name), EndMarker(name);
    var result, j' := Spliced(text, name, i, j, block), i + |start| + |block| + 2;
    forall k: nat ensures At(result, start, k) <==> k == i {
      OccurrencesAfterSplice(text, name, i, j, block, start, k);
    }
    forall k: nat ensures At(result, end, k) <==> k == j' {
      OccurrencesAfterSplice(text, name, i, j, block, end, k);
    }
  }

  /** A block with a marker leaves that marker twice, so no single pair remains. */
  lemma SplicedWithMarkerIsNoBlock(text: string, name: string, i: nat, j: nat, block: string)
    requires ProperName(name) && Block(text, name, i, j) && !FreeOfMarkers(block, name)
    ensures forall i': nat, j': nat :: !Block(Spliced(text, name, i, j, block), name, i', j')
  {
    MarkersAreProper(name);
    var start, end := StartMarker(name), EndMarker(name);
    var result, j' := Spliced(text, name, i, j, block), i + |start| + |block| + 2;
    OccurrencesAfterSplice(text, name, i, j, block, start, i);
    OccurrencesAfterSplice(text, name, i, j, block, end, j');
    if !Absent(block, start) {
      var p: nat :| At(block, start, p);
      OccurrencesAfterSplice(text, name, i, j, block, start, i + |start| + 1 + p);
    } else {
      var p: nat :| At(block, end, p);
      OccurrencesAfterSplice(text, name, i, j, block, end, i + |start| + 1 + p);
    }
  }

  lemma SplicedTwice(text: string, name: string, i: nat, j: nat, first: string, second: string)
    requires Block(text, name, i, j)
    ensures var j' := i + |StartMarker(name)| + |first| + 2;
            Spliced(Spliced(text, name, i, j, first), name, i, j', second) == Spliced(text, name, i, j, second)
  {
    var head, tail := text[..i + |StartMarker(name)|], text[j..];
    SpliceParts(head, first, tail, second);
  }

  lemma SpliceParts(head: string, first: string, tail: string, second: string)
    ensures var once := head + "\n" + first + "\n" + tail;
            once[..|head|] + "\n" + second + "\n" + once[|head| + |first| + 2..]
              == head + "\n" + second + "\n" + tail
  {
    var once := head + "\n" + first + "\n" + tail;
    assert once[..|head|] == head;
    assert once[|head| + |first| + 2..] == tail;
  }

  /** The update laws.  After a successful replacement another one succeeds exactly when
      the inserted block is free of the markers; then the last body wins, so replacing
      twice with one body is replacing once. */
  lemma UpdateLaws(text: string, name: string, first: string, second: string)
    requires ProperName(name) && ReplaceBlock(text, name, first).Some?
    ensures ReplaceBlock(ReplaceBlock(text, name, first).value, name, second).Some?
            <==> FreeOfMarkers(Strip(first), name)
    ensures FreeOfMarkers(Strip(first), name) ==>
              ReplaceBlock(ReplaceBlock(text, name, first).value, name, second)
                == ReplaceBlock(text, name, second)
  {
    ReplaceMeaning(text, name, first);
    ReplaceMeaning(text, name, second);
    var i: nat, j: nat :| Block(text, name, i, j);
    var block := Strip(first);
    var once := Spliced(text, name, i, j, block);
    assert ReplaceBlock(text, name, first) == Some(once);
    ReplaceMeaning(once, name, second);
    if FreeOfMarkers(block, name) {
      SplicedIsBlock(text, name, i, j, block);
      SplicedTwice(text, name, i, j, block, Strip(second));
    } else {
      SplicedWithMarkerIsNoBlock(text, name, i, j, block);
    }
  }

  /** Replacing twice with the same body is replacing once. */
  lemma ReplaceIsIdempotent(text: string, name: string, body: string)
    requires ProperName(name) && ReplaceBlock(text, name, body).Some?
    requires FreeOfMarkers(Strip(body), name)
    ensures ReplaceBlock(ReplaceBlock(text, name, body).value, name, body) == ReplaceBlock(text, name, body)
  {
    UpdateLaws(text, name, body, body);
  }

  /** Two markers with nothing between them are a block. */
  lemma EmptyBlock(name: string)
    requires ProperName(name)
    ensures Block(StartMarker(name) + EndMarker(name), name, 0, |StartMarker(name)|)
  {
    MarkersAreProper(name);
    var start, end := StartMarker(name), EndMarker(name);
    var text, n := start + end, |start|;
    assert |start| > |end|;
    assert start[6 + |name|] == 'S' && end[6 + |name|] == 'E';
    assert text[0..n] == start && text[n..n + |end|] == end;
    assert text[0..|end|][6 + |name|] == start[6 + |name|];
    forall j: nat | At(text, start, j) || At(text, end, j) ensures j == 0 || j == n { MarkerStarts(start, end, j); }
    assert !At(text, start, n);
  }

  lemma MarkerStarts(start: string, end: string, j: nat)
    requires MarkerText(start) && MarkerText(end) && (At(start + end, start, j) || At(start + end, end, j))
    ensures j == 0 || j == |start|
  {
    var text := start + end;
    assert forall k :: 0 < k < |start| ==> text[k] == start[1..][k - 1];
    assert forall k :: |start| < k < |text| ==> text[k] == end[1..][k - |start| - 1];
    MarkerFirstLetter(text, start, j);
    MarkerFirstLetter(text, end, j);
  }

  lemma MarkerFirstLetter(text: string, m: string, j: nat)
    requires MarkerText(m)
    ensures At(text, m, j) ==> j < |text| && text[j] == '<'
  {
    if At(text, m, j) { assert text[j..j + |m|][0] == text[j]; }
  }
}
