/** A codec for the report and measurement texts that obeys the laws which the hand-off
    theorems assume.

    A text is a list of numbers in unary: the kind of the document, and its letters or its
    tag.  Real JSON obeys the same laws; this codec only shows that they can be met. */
module ReportCodec {
  import opened Sequences
  import opened SandboxHandoff
  import opened CommandFreedom

  function Unary(n: nat): Bytes { if n == 0 then [0] else [1] + Unary(n - 1) }

  function Numbers(ns: seq<nat>): Bytes { if ns == [] then [] else Unary(ns[0]) + Numbers(ns[1..]) }

  /** The first number, and the rest, can be read off the first byte. */
  lemma FirstByte(ns: seq<nat>)
    requires ns != []
    ensures Numbers(ns) != [] && (Numbers(ns)[0] == 0 <==> ns[0] == 0)
    ensures Numbers(ns)[1..] == if ns[0] == 0 then Numbers(ns[1..]) else Numbers([ns[0] - 1] + ns[1..])
  {
    if ns[0] > 0 {
      var less := [ns[0] - 1] + ns[1..];
      assert less[1..] == ns[1..];
      assert Numbers(ns) == [1] + (Unary(ns[0] - 1) + Numbers(ns[1..]));
    }
  }

  lemma {:induction false} NumbersAreUnique(a: seq<nat>, b: seq<nat>)
    requires Numbers(a) == Numbers(b)
    ensures a == b
    decreases |Numbers(a)|
  {
    if a != [] { FirstByte(a); }
    if b != [] { FirstByte(b); }
    if a != [] && b != [] {
      if a[0] == 0 {
        NumbersAreUnique(a[1..], b[1..]);
        assert a == [a[0]] + a[1..] && b == [b[0]] + b[1..];
      } else {
        var x, y := [a[0] - 1] + a[1..], [b[0] - 1] + b[1..];
        NumbersAreUnique(x, y);
        assert a == [x[0] + 1] + x[1..] && b == [y[0] + 1] + y[1..];
      }
    }
  }

  function Letters(s: string): (r: seq<nat>)
    ensures |r| == |s|
  {
    seq(|s|, i requires 0 <= i < |s| => s[i] as nat)
  }

  lemma LettersAreUnique(s: string, t: string)
    requires Letters(s) == Letters(t)
    ensures s == t
  {
    assert |s| == |t|;
    forall i | 0 <= i < |s| ensures s[i] == t[i] {
      assert Letters(s)[i] == Letters(t)[i];
    }
  }

  function NumbersOf(j: Json): seq<nat> {
    match j
    case Report(reason) => [0] + Letters(reason)
    case Object(tag) => if tag >= 0 then [1, tag] else [2, -tag]
    case NotAnObject => [3]
  }

  function Render(j: Json): Bytes { Numbers(NumbersOf(j)) }

  lemma RenderIsUnique(j: Json, k: Json)
    requires Render(j) == Render(k)
    ensures j == k
  {
    NumbersAreUnique(NumbersOf(j), NumbersOf(k));
    assert NumbersOf(j)[0] == NumbersOf(k)[0];
    if j.Report? {
      assert NumbersOf(j)[1..] == Letters(j.reason) && NumbersOf(k)[1..] == Letters(k.reason);
      LettersAreUnique(j.reason, k.reason);
    } else if j.Object? {
      assert NumbersOf(j)[1] == NumbersOf(k)[1];
    }
  }

  ghost function Parse(text: Bytes): Option<Json> {
    if exists j :: Render(j) == text then
      var j :| Render(j) == text;
      Some(j)
    else None
  }

  lemma {:induction false} UnarySize(n: nat)
    ensures |Unary(n)| == n + 1
  {
    if n > 0 { UnarySize(n - 1); }
  }

  lemma {:induction false} NumbersSize(ns: seq<nat>)
    requires forall i :: 0 <= i < |ns| ==> ns[i] < 128
    ensures |Numbers(ns)| <= 128 * |ns|
  {
    if ns != [] {
      UnarySize(ns[0]);
      NumbersSize(ns[1..]);
    }
  }

  /** A short text of ASCII letters has a small report. */
  lemma ReportSize(reason: string)
    requires |reason| <= 13 && forall i :: 0 <= i < |reason| ==> reason[i] < 128 as char
    ensures |Render(Report(reason))| <= 64 * 1024
  {
    var ns := NumbersOf(Report(reason));
    assert forall i :: 0 <= i < |ns| ==> ns[i] == if i == 0 then 0 else reason[i - 1] as nat;
    NumbersSize(ns);
  }

  lemma TextsAreShort(status: Status)
    ensures var t := TextOf(status); |t| <= 13 && forall i :: 0 <= i < |t| ==> t[i] < 128 as char
  {
  }

  /** The assumptions on codecs can be met. */
  lemma LawfulCodecExists() returns (codec: Codec)
    ensures Lawful(codec) && SmallReports(codec)
  {
    codec := Codec(text => Parse(text), j => Render(j));
    forall j ensures codec.parse(codec.render(j)) == Some(j) && codec.render(j) != [] {
      FirstByte(NumbersOf(j));
      assert Render(j) == codec.render(j);
      RenderIsUnique(Parse(codec.render(j)).value, j);
    }
    forall status ensures |ClaimOf(codec, status)| <= 64 * 1024 {
      TextsAreShort(status);
      ReportSize(TextOf(status));
    }
  }
}
