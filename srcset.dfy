/** The `srcset` attribute the image components build: image candidates `<url> <width>w`
    separated by ", ", with a reader that takes the list back apart. */
module SrcSet {

  import opened Wrappers
  import opened Text
  import opened Decimal

  /** One image candidate with its width descriptor. */
  datatype Candidate = Candidate(url: string, width: nat)

  function CandidateText(c: Candidate): string {
    c.url + " " + NatToString(c.width) + "w"
  }

  /** The candidates in order, separated by ", ". */
  function Render(cs: seq<Candidate>): string {
    if cs == [] then ""
    else if |cs| == 1 then CandidateText(cs[0])
    else CandidateText(cs[0]) + ", " + Render(cs[1..])
  }

  lemma RenderTwo(a: Candidate, b: Candidate)
    ensures Render([a, b]) == CandidateText(a) + ", " + CandidateText(b)
  {
    assert [a, b][1..] == [b];
  }

  lemma RenderThree(a: Candidate, b: Candidate, c: Candidate)
    ensures Render([a, b, c]) == CandidateText(a) + ", " + CandidateText(b) + ", " + CandidateText(c)
  {
    assert [a, b, c][1..] == [b, c];
    RenderTwo(b, c);
  }

  predicate NoSpace(s: string) {
    forall i :: 0 <= i < |s| ==> s[i] != ' '
  }

  /** The longest prefix of `s` without a space. */
  function UntilSpace(s: string): (u: string)
    ensures IsPrefix(u, s) && NoSpace(u)
    ensures |u| == |s| || s[|u|] == ' '
  {
    if s == [] || s[0] == ' ' then [] else [s[0]] + UntilSpace(s[1..])
  }

  lemma {:induction false} UntilSpaceOf(u: string, rest: string)
    requires NoSpace(u) && rest != [] && rest[0] == ' '
    ensures UntilSpace(u + rest) == u
  {
    if u == [] {
      assert u + rest == rest;
    } else {
      assert (u + rest)[1..] == u[1..] + rest;
      UntilSpaceOf(u[1..], rest);
    }
  }

  /** Reads a width descriptor — digits, then `w` — and returns what follows it. */
  function ParseDescriptor(s: string): (r: Option<(nat, string)>)
    ensures r.Some? ==> |r.value.1| < |s|
  {
    var d := LeadingDigits(s);
    if d == [] || |d| == |s| || s[|d|] != 'w' then None
    else Some((StringToNat(d), s[|d| + 1..]))
  }

  /** Reads one candidate — the URL up to the first space, then its descriptor — and returns
      what follows it. */
  function ParseCandidate(s: string): (r: Option<(Candidate, string)>)
    ensures r.Some? ==> |r.value.1| < |s|
  {
    var u := UntilSpace(s);
    if |u| == |s| then None
    else match ParseDescriptor(s[|u| + 1..])
      case None => None
      case Some((w, rest)) => Some((Candidate(u, w), rest))
  }

  /** Reads a whole candidate list. */
  function Parse(s: string): Option<seq<Candidate>>
    decreases |s|
  {
    match ParseCandidate(s)
    case None => None
    case Some((c, rest)) =>
      if rest == "" then Some([c])
      else if !IsPrefix(", ", rest) then None
      else match Parse(rest[2..])
        case None => None
        case Some(cs) => Some([c] + cs)
  }

  lemma DescriptorOf(w: nat, tail: string)
    ensures ParseDescriptor(NatToString(w) + ("w" + tail)) == Some((w, tail))
  {
    var d := NatToString(w);
    var s := d + ("w" + tail);
    LeadingDigitsOf(d, "w" + tail);
    ParseRender(w);
    assert s[|d|] == 'w' && s[|d| + 1..] == tail;
  }

  lemma ParseCandidateOf(c: Candidate, tail: string)
    requires NoSpace(c.url)
    ensures ParseCandidate(CandidateText(c) + tail) == Some((c, tail))
  {
    var s := CandidateText(c) + tail;
    var after := NatToString(c.width) + ("w" + tail);
    assert s == c.url + (" " + after);
    UntilSpaceOf(c.url, " " + after);
    assert s[|c.url| + 1..] == after;
    DescriptorOf(c.width, tail);
  }

  /** The last step of the reader: a candidate with nothing after it. */
  lemma ParseLast(s: string, c: Candidate)
    requires ParseCandidate(s) == Some((c, ""))
    ensures Parse(s) == Some([c])
  {
  }

  /** One step of the reader: a candidate followed by ", " and a readable list. */
  lemma ParseCons(s: string, c: Candidate, r: string, cs: seq<Candidate>)
    requires ParseCandidate(s) == Some((c, ", " + r))
    requires Parse(r) == Some(cs)
    ensures Parse(s) == Some([c] + cs)
  {
    assert IsPrefix(", ", ", " + r) && (", " + r)[2..] == r;
  }

  lemma RenderCons(cs: seq<Candidate>)
    requires |cs| > 1 && NoSpace(cs[0].url)
    requires Parse(Render(cs[1..])) == Some(cs[1..])
    ensures Parse(Render(cs)) == Some(cs)
  {
    var r := Render(cs[1..]);
    assert Render(cs) == CandidateText(cs[0]) + (", " + r);
    ParseCandidateOf(cs[0], ", " + r);
    ParseCons(Render(cs), cs[0], r, cs[1..]);
    assert cs == [cs[0]] + cs[1..];
  }

  /** Reading a rendered list gives the candidates back, in order, when no URL holds a space. */
  lemma {:induction false} ParseRenderInverse(cs: seq<Candidate>)
    requires cs != []
    requires forall i :: 0 <= i < |cs| ==> NoSpace(cs[i].url)
    ensures Parse(Render(cs)) == Some(cs)
  {
    if |cs| == 1 {
      ParseCandidateOf(cs[0], "");
      assert CandidateText(cs[0]) + "" == CandidateText(cs[0]) == Render(cs);
      ParseLast(Render(cs), cs[0]);
      assert cs == [cs[0]];
    } else {
      assert forall i :: 0 <= i < |cs| - 1 ==> cs[1..][i] == cs[i + 1];
      ParseRenderInverse(cs[1..]);
      RenderCons(cs);
    }
  }
}
