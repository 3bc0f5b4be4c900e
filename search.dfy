/** The search endpoint: a case- and accent-sensitive LIKE on title or content, each hit
    reduced to id, title, the head of its content and the publication instant.

    Two versions are modelled. `SearchAsWritten` follows the controller as written: its guard
    is PHP truthiness, so the query "0" finds nothing, and it cuts the content to 200 BYTES,
    which can split a UTF-8 character and make the JSON encoding fail. `Search` is the
    evidently intended behaviour (only an absent or empty query finds nothing; the content is
    cut to 200 characters), and the lemmas at the end relate the two. */
module Search {

  import opened Wrappers
  import opened Text
  import opened Database
  import opened SqlLike
  import opened Utf8
  import Php

  const CutLength: nat := 200

  function Min(a: int, b: int): int {
    if a <= b then a else b
  }

  // ---------------------------------------------------------------- the filter

  /** `col COLLATE utf8mb4_bin LIKE pattern`; a NULL column never matches. */
  predicate ColumnLike(col: Option<string>, pattern: string) {
    col.Some? && Like(col.value, pattern)
  }

  predicate Matches(a: Article, q: string) {
    ColumnLike(a.title, "%" + q + "%") || ColumnLike(a.content, "%" + q + "%")
  }

  /** The rows the query returns, in table order. */
  function Filter(articles: seq<Article>, q: string): (r: seq<Article>)
    ensures |r| <= |articles|
    ensures forall a :: a in r <==> a in articles && Matches(a, q)
  {
    if articles == [] then []
    else (if Matches(articles[0], q) then [articles[0]] else []) + Filter(articles[1..], q)
  }

  /** Filtering works piecewise, so the rows it keeps stay in table order. */
  lemma {:induction false} FilterAppend(s: seq<Article>, t: seq<Article>, q: string)
    ensures Filter(s + t, q) == Filter(s, q) + Filter(t, q)
  {
    if s == [] {
      assert s + t == t;
    } else {
      assert (s + t)[0] == s[0] && (s + t)[1..] == s[1..] + t;
      FilterAppend(s[1..], t, q);
    }
  }

  /** A column contains the query as a substring. */
  predicate ColumnContains(col: Option<string>, q: string) {
    col.Some? && Contains(col.value, q)
  }

  /** For a query without LIKE's special characters the filter is a plain substring test on
      title or content. */
  lemma FilterIsSubstring(articles: seq<Article>, q: string)
    requires WildcardFree(q)
    ensures forall a :: a in Filter(articles, q) <==>
      a in articles && (ColumnContains(a.title, q) || ColumnContains(a.content, q))
  {
    forall a | a in articles
      ensures Matches(a, q) <==> ColumnContains(a.title, q) || ColumnContains(a.content, q)
    {
      if a.title.Some? { LikeContains(a.title.value, q); }
      if a.content.Some? { LikeContains(a.content.value, q); }
    }
  }

  // ---------------------------------------------------------------- the response

  /** One hit as the JSON body shows it. */
  datatype Hit = Hit(id: nat, title: Option<string>, content: string, publishedAt: Option<int>)

  /** `response()->json(...)`: 200 with the hits, or 500 when a value cannot be encoded. */
  datatype SearchResponse = Found(hits: seq<Hit>) | EncodingError

  function Status(r: SearchResponse): nat {
    if r.Found? then 200 else 500
  }

  // ---------------------------------------------------------------- as written

  /** `substr($article->content, 0, 200)`: the first 200 bytes of the stored UTF-8 text; a
      NULL content becomes "". */
  function CutBytes(content: Option<string>): (b: seq<byte>)
    ensures content.None? ==> b == []
    ensures content.Some? ==> |b| == Min(CutLength, |Encode(content.value)|)
                               && IsPrefix(b, Encode(content.value))
  {
    if content.None? then [] else
      var e := Encode(content.value);
      e[..Min(CutLength, |e|)]
  }

  /** The cut content read back as text, None when the cut bytes are not UTF-8. */
  function CutText(a: Article): Option<string> {
    Decode(CutBytes(a.content))
  }

  /** The hits of the rows the filter kept, or None when some cut content is not UTF-8
      (json_encode fails on it). */
  function HitsAsWritten(rows: seq<Article>): (r: Option<seq<Hit>>)
    ensures r.None? <==> exists i :: 0 <= i < |rows| && CutText(rows[i]).None?
    ensures r.Some? ==> |r.value| == |rows|
    ensures r.Some? ==> forall i :: 0 <= i < |rows| ==>
      CutText(rows[i]).Some? && r.value[i] == Hit(rows[i].id, rows[i].title, CutText(rows[i]).value, rows[i].publishedAt)
  {
    if rows == [] then Some([])
    else match Decode(CutBytes(rows[0].content))
      case None => None
      case Some(text) =>
        match HitsAsWritten(rows[1..])
        case None => None
        case Some(rest) => Some([Hit(rows[0].id, rows[0].title, text, rows[0].publishedAt)] + rest)
  }

  function SearchAsWritten(articles: seq<Article>, q: Option<string>): (r: SearchResponse)
    ensures Php.Falsy(q) ==> r == Found([])
    ensures !Php.Falsy(q) ==> var rows := Filter(articles, q.value);
      r.EncodingError? <==> exists i :: 0 <= i < |rows| && CutText(rows[i]).None?
    ensures !Php.Falsy(q) && r.Found? ==> |r.hits| == |Filter(articles, q.value)|
    ensures !Php.Falsy(q) && r.Found? ==> var rows := Filter(articles, q.value);
      forall i :: 0 <= i < |rows| ==>
        CutText(rows[i]).Some? && r.hits[i] == Hit(rows[i].id, rows[i].title, CutText(rows[i]).value, rows[i].publishedAt)
  {
    if Php.Falsy(q) then Found([])
    else match HitsAsWritten(Filter(articles, q.value))
      case None => EncodingError
      case Some(hits) => Found(hits)
  }

  // ---------------------------------------------------------------- as intended

  /** `mb_substr($content, 0, 200)` on a nullable content: the first 200 characters. */
  function Cut(content: Option<string>): (c: string)
    ensures |c| <= CutLength
    ensures content.None? ==> c == ""
    ensures content.Some? ==> IsPrefix(c, content.value) && |c| == Min(CutLength, |content.value|)
  {
    if content.None? then "" else content.value[..Min(CutLength, |content.value|)]
  }

  function HitOf(a: Article): (h: Hit)
    ensures h.id == a.id && h.title == a.title && h.publishedAt == a.publishedAt
    ensures h.content == Cut(a.content)
  {
    Hit(a.id, a.title, Cut(a.content), a.publishedAt)
  }

  function Hits(rows: seq<Article>): (r: seq<Hit>)
    ensures |r| == |rows|
    ensures forall i :: 0 <= i < |rows| ==> r[i] == HitOf(rows[i])
  {
    if rows == [] then [] else [HitOf(rows[0])] + Hits(rows[1..])
  }

  /** Only an absent or empty query finds nothing; every other query is run. */
  predicate NoQuery(q: Option<string>) {
    q.None? || q.value == ""
  }

  /** The corrected guard short-circuits on fewer queries than `!$query`: the two differ on
      the query "0" and on no other. */
  lemma GuardsDifferOnlyOnZero(q: Option<string>)
    ensures NoQuery(q) ==> Php.Falsy(q)
    ensures Php.Falsy(q) && !NoQuery(q) <==> q == Some("0")
  {
  }

  function Search(articles: seq<Article>, q: Option<string>): (r: SearchResponse)
    ensures r.Found?
    ensures NoQuery(q) ==> r.hits == []
    ensures !NoQuery(q) ==> |r.hits| == |Filter(articles, q.value)|
    ensures !NoQuery(q) ==> forall i :: 0 <= i < |r.hits| ==> r.hits[i] == HitOf(Filter(articles, q.value)[i])
  {
    if NoQuery(q) then Found([]) else Found(Hits(Filter(articles, q.value)))
  }

  /** The intended search for a query without wildcards: each hit comes from an article whose
      title or content contains the query, the content is at most 200 characters and starts the
      article's content, and every article containing the query is among the hits. */
  lemma SearchFindsSubstrings(articles: seq<Article>, q: string)
    requires q != "" && WildcardFree(q)
    ensures var hits := Search(articles, Some(q)).hits;
      && (forall h :: h in hits ==> exists a :: a in articles && HitOf(a) == h
                                               && (ColumnContains(a.title, q) || ColumnContains(a.content, q)))
      && (forall a :: a in articles && (ColumnContains(a.title, q) || ColumnContains(a.content, q)) ==> HitOf(a) in hits)
  {
    var rows := Filter(articles, q);
    var hits := Search(articles, Some(q)).hits;
    FilterIsSubstring(articles, q);
    forall h | h in hits
      ensures exists a :: a in articles && HitOf(a) == h && (ColumnContains(a.title, q) || ColumnContains(a.content, q))
    {
      var i :| 0 <= i < |hits| && hits[i] == h;
      assert rows[i] in rows;
    }
    forall a | a in articles && (ColumnContains(a.title, q) || ColumnContains(a.content, q))
      ensures HitOf(a) in hits
    {
      var i :| 0 <= i < |rows| && rows[i] == a;
      assert hits[i] == HitOf(a);
    }
  }

  // ---------------------------------------------------------------- the two versions compared

  predicate IsAscii(s: string) {
    forall i :: 0 <= i < |s| ==> s[i] as int < 0x80
  }

  predicate AsciiContent(a: Article) {
    a.content.None? || IsAscii(a.content.value)
  }

  /** On ASCII text, cutting 200 bytes is cutting 200 characters. */
  lemma CutBytesAscii(content: Option<string>)
    requires content.None? || IsAscii(content.value)
    ensures CutBytes(content) == Encode(Cut(content))
  {
    if content.Some? {
      var c := content.value;
      var k := Min(CutLength, |c|);
      EncodeAscii(c);
      EncodeAscii(c[..k]);
      EncodePrefix(c, k);
    }
  }

  lemma {:induction false} HitsAsWrittenAscii(rows: seq<Article>)
    requires forall a :: a in rows ==> AsciiContent(a)
    ensures HitsAsWritten(rows) == Some(Hits(rows))
  {
    if rows != [] {
      assert rows[0] in rows;
      CutBytesAscii(rows[0].content);
      DecodeEncode(Cut(rows[0].content));
      HitsAsWrittenAscii(rows[1..]);
    }
  }

  /** Apart from the query "0", the controller as written behaves as intended whenever the
      contents it cuts are ASCII. */
  lemma AsWrittenAgreesOnAscii(articles: seq<Article>, q: Option<string>)
    requires q != Some("0")
    requires forall a :: a in articles ==> AsciiContent(a)
    ensures SearchAsWritten(articles, q) == Search(articles, q)
  {
    if !NoQuery(q) {
      HitsAsWrittenAscii(Filter(articles, q.value));
    }
  }

  // ---------------------------------------------------------------- the two findings

  /** An article titled "0". */
  function ZeroTitled(): Article {
    Article(1, Some("0"), None, Some(1), None, None, Some(0), Some(0))
  }

  /** The query "0" finds nothing as written, although an article's title contains it. */
  lemma ZeroQueryFindsNothing()
    ensures SearchAsWritten([ZeroTitled()], Some("0")) == Found([])
    ensures Search([ZeroTitled()], Some("0")) == Found([HitOf(ZeroTitled())])
  {
    assert OccursAt("0", "0", 0);
    LikeContains("0", "0");
    assert Filter([ZeroTitled()], "0") == [ZeroTitled()];
  }

  function Repeat(c: char, n: nat): (s: string)
    ensures |s| == n && forall i :: 0 <= i < n ==> s[i] == c
  {
    if n == 0 then [] else [c] + Repeat(c, n - 1)
  }

  /** 199 letters followed by "é": 201 bytes, and byte 200 is the first of the two of "é". */
  function AccentAtTheCut(): Article {
    Article(2, Some("t"), Some(Repeat('a', 199) + "é"), Some(1), None, None, Some(0), Some(0))
  }

  /** The first 200 bytes of that content end on the lead byte 0xC3 of "é". */
  lemma AccentCutBytes()
    ensures var b := CutBytes(AccentAtTheCut().content); b != [] && b[|b| - 1] == 0xC3
  {
    var s := Repeat('a', 199);
    var c := s + "é";
    assert c[..|c| - 1] == s && c[|c| - 1] == 'é';
    EncodeAscii(s);
    var e := Encode(c);
    assert e == Encode(s) + EncodeChar('é');
    assert |e| == 201 && e[199] == 0xC3;
    assert CutBytes(Some(c)) == e[..200];
  }

  lemma AccentMatches()
    ensures Filter([AccentAtTheCut()], "a") == [AccentAtTheCut()]
  {
    var c := AccentAtTheCut().content.value;
    assert OccursAt(c, "a", 0) by { assert c[0..1] == "a"; }
    LikeContains(c, "a");
  }

  /** As written, searching "a" fails with status 500 on that article; the intended search
      returns the first 200 characters, the "é" included. */
  lemma ByteCutBreaksEncoding()
    ensures SearchAsWritten([AccentAtTheCut()], Some("a")) == EncodingError
    ensures Search([AccentAtTheCut()], Some("a")).hits == [HitOf(AccentAtTheCut())]
    ensures HitOf(AccentAtTheCut()).content == Repeat('a', 199) + "é"
  {
    var a := AccentAtTheCut();
    AccentMatches();
    AccentCutBytes();
    DecodeRejectsTrailingLead(CutBytes(a.content));
    assert HitsAsWritten([a]) == None;
    assert a.content.value[..200] == a.content.value;
  }
}
