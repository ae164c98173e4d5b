/**
 * Link extraction: `re.findall(r"(https?://[^\s]+)", text or "", re.IGNORECASE)`.
 *
 * The regex engine scans left to right; at a position where a match starts it
 * takes the longest run of non-whitespace after the scheme and resumes the scan
 * where that match ends, otherwise it moves on by one character.
 */
module Links {
  import opened Common
  import opened Chars

  /** A match as half-open character positions `[start, end)` of the text. */
  datatype Span = Span(start: nat, end: nat)

  /** `t[i..]` begins with `lit` letter for letter, up to case (IGNORECASE). */
  predicate CaseInsensitiveAt(t: string, i: nat, lit: string) {
    i + |lit| <= |t| && LowerStr(t[i..i + |lit|]) == lit
  }

  /** Length of the `https?://` part of a match at `i`, or 0 when no scheme starts there. */
  function SchemeLen(t: string, i: nat): (n: nat)
    ensures n == 0 || n == 7 || n == 8
    ensures n == 7 <==> CaseInsensitiveAt(t, i, "http") && i + 7 <= |t| && t[i + 4..i + 7] == "://"
    ensures n == 8 <==> CaseInsensitiveAt(t, i, "https") && i + 8 <= |t| && t[i + 5..i + 8] == "://"
  {
    if CaseInsensitiveAt(t, i, "http") && i + 7 <= |t| && t[i + 4..i + 7] == "://" then
      assert t[i + 4] == t[i + 4..i + 7][0] == ':';
      assert Lower(t[i + 4]) != "https"[4];
      7
    else if CaseInsensitiveAt(t, i, "https") && i + 8 <= |t| && t[i + 5..i + 8] == "://" then 8
    else 0
  }

  /** End of the greedy `[^\s]+` run that starts at `j`: the first whitespace at or after `j`. */
  function RunEnd(t: string, j: nat): (e: nat)
    requires j <= |t|
    ensures j <= e <= |t|
    ensures forall k :: j <= k < e ==> !IsSpace(t[k])
    ensures e == |t| || IsSpace(t[e])
    decreases |t| - j
  {
    if j == |t| || IsSpace(t[j]) then j else RunEnd(t, j + 1)
  }

  /** The end of the match that starts at `i`, if one does. */
  function MatchAt(t: string, i: nat): (r: Option<nat>)
    requires i <= |t|
    ensures r.Some? <==> (var n := SchemeLen(t, i); n > 0 && i + n < |t| && !IsSpace(t[i + n]))
    ensures r.Some? ==> i < r.value <= |t| && IsMatch(t, i, r.value)
  {
    var n := SchemeLen(t, i);
    if n == 0 then None
    else
      var e := RunEnd(t, i + n);
      if e == i + n then None else Some(e)
  }

  /**
   * Reference description of one match, written independently of the scanner:
   * a scheme at `start`, at least one non-whitespace character after it, and
   * `end` is where the non-whitespace run stops.
   */
  predicate IsMatch(t: string, start: nat, end: nat) {
    var n := SchemeLen(t, start);
    && n > 0
    && start + n < end <= |t|
    && (forall k :: start + n <= k < end ==> !IsSpace(t[k]))
    && (end == |t| || IsSpace(t[end]))
  }

  lemma MatchAtIsMatch(t: string, i: nat, e: nat)
    requires i <= |t|
    ensures MatchAt(t, i) == Some(e) <==> IsMatch(t, i, e)
  {
    var n := SchemeLen(t, i);
    if IsMatch(t, i, e) {
      RunEndUnique(t, i + n, e);
    }
  }

  /** A position past `j` that ends a non-whitespace run from `j` is the run's end. */
  lemma {:induction false} RunEndUnique(t: string, j: nat, e: nat)
    requires j <= e <= |t|
    requires forall k :: j <= k < e ==> !IsSpace(t[k])
    requires e == |t| || IsSpace(t[e])
    ensures RunEnd(t, j) == e
    decreases e - j
  {
    if j < e {
      RunEndUnique(t, j + 1, e);
    }
  }

  /**
   * Where a match ends for each start position: `table[x]` is `MatchAt(t, x)`.
   * The scan below reads only this table, so its lemmas are about the scan alone.
   */
  function MatchTable(t: string): (table: seq<Option<nat>>)
    ensures |table| == |t|
    ensures forall x :: 0 <= x < |t| ==> table[x] == MatchAt(t, x)
    ensures WellFormedTable(table)
  {
    seq(|t|, x requires 0 <= x < |t| => MatchAt(t, x))
  }

  /** Every match ends after its start and within the text. */
  predicate WellFormedTable(table: seq<Option<nat>>) {
    forall x :: 0 <= x < |table| && table[x].Some? ==> x < table[x].value <= |table|
  }

  /**
   * The `findall` scan from position `i`: take the match that starts at `i` and
   * resume where it ends, or move on by one position.
   */
  function ScanFrom(table: seq<Option<nat>>, i: nat): (sp: seq<Span>)
    requires WellFormedTable(table) && i <= |table|
    ensures forall k :: 0 <= k < |sp| ==> i <= sp[k].start < sp[k].end <= |table|
    decreases |table| - i
  {
    if i == |table| then []
    else match table[i]
      case Some(e) => [Span(i, e)] + ScanFrom(table, e)
      case None => ScanFrom(table, i + 1)
  }

  /** The spans `findall` reports on `t`. */
  function Spans(t: string): seq<Span> {
    ScanFrom(MatchTable(t), 0)
  }

  /** `extract_links`: the text of every span, in order. */
  function ExtractLinks(t: string): (links: seq<string>)
    ensures |links| == |Spans(t)|
    ensures t == [] ==> links == []
  {
    var sp := Spans(t);
    seq(|sp|, k requires 0 <= k < |sp| => t[sp[k].start..sp[k].end])
  }

  /** Every reported span is a table entry: a match starts at its start and ends at its end. */
  lemma {:induction false} ScanSound(table: seq<Option<nat>>, i: nat)
    requires WellFormedTable(table) && i <= |table|
    ensures forall k :: 0 <= k < |ScanFrom(table, i)| ==>
              table[ScanFrom(table, i)[k].start] == Some(ScanFrom(table, i)[k].end)
    decreases |table| - i
  {
    if i < |table| {
      match table[i]
      case Some(e) => ScanSound(table, e);
      case None => ScanSound(table, i + 1);
    }
  }

  /** Reported spans run left to right and do not overlap. */
  lemma {:induction false} ScanOrdered(table: seq<Option<nat>>, i: nat)
    requires WellFormedTable(table) && i <= |table|
    ensures forall k :: 0 <= k < |ScanFrom(table, i)| - 1 ==> ScanFrom(table, i)[k].end <= ScanFrom(table, i)[k + 1].start
    decreases |table| - i
  {
    if i < |table| {
      match table[i]
      case Some(e) => ScanOrdered(table, e);
      case None => ScanOrdered(table, i + 1);
    }
  }

  /**
   * Completeness of the scan: every position `p >= i` where a match starts lies
   * inside a reported span (the scan was busy with an earlier match there, or
   * took this one); `k` is that span.
   */
  lemma {:induction false} ScanComplete(table: seq<Option<nat>>, i: nat, p: nat) returns (k: nat)
    requires WellFormedTable(table) && i <= p < |table|
    requires table[p].Some?
    ensures k < |ScanFrom(table, i)|
    ensures ScanFrom(table, i)[k].start <= p < ScanFrom(table, i)[k].end
    decreases |table| - i
  {
    var sp := ScanFrom(table, i);
    match table[i]
    case Some(e) =>
      var rest := ScanFrom(table, e);
      assert sp == [Span(i, e)] + rest;
      if p < e {
        k := 0;
      } else {
        var j := ScanComplete(table, e, p);
        k := j + 1;
        assert sp[k] == rest[j];
      }
    case None =>
      k := ScanComplete(table, i + 1, p);
  }

  /** Every span found in `t` is a match in the sense of `IsMatch`. */
  lemma SpansAreMatches(t: string)
    ensures forall k :: 0 <= k < |Spans(t)| ==> IsMatch(t, Spans(t)[k].start, Spans(t)[k].end)
  {
    var sp := Spans(t);
    ScanSound(MatchTable(t), 0);
    forall k | 0 <= k < |sp|
      ensures IsMatch(t, sp[k].start, sp[k].end)
    {
      MatchAtIsMatch(t, sp[k].start, sp[k].end);
    }
  }

  /** Spans in `t` are left to right, and a whitespace character separates neighbours. */
  lemma SpansOrdered(t: string)
    ensures forall k :: 0 <= k < |Spans(t)| - 1 ==> Spans(t)[k].end < Spans(t)[k + 1].start
  {
    var sp := Spans(t);
    ScanOrdered(MatchTable(t), 0);
    SpansAreMatches(t);
    forall k | 0 <= k < |sp| - 1
      ensures sp[k].end < sp[k + 1].start
    {
      if sp[k].end == sp[k + 1].start {
        SchemeNotSpace(t, sp[k + 1].start);
      }
    }
  }

  /** No match in `t` is missed: every position where one starts lies inside a reported span. */
  lemma SpansComplete(t: string, p: nat) returns (k: nat)
    requires p < |t| && MatchAt(t, p).Some?
    ensures k < |Spans(t)| && Spans(t)[k].start <= p < Spans(t)[k].end
  {
    k := ScanComplete(MatchTable(t), 0, p);
  }

  /** A link starts with `http://` or `https://` (any case in the scheme letters). */
  predicate HasScheme(link: string) {
    SchemeLen(link, 0) > 0
  }

  /**
   * Every extracted link starts with the scheme, has at least one character
   * after it and holds no whitespace.
   */
  lemma LinkShape(t: string)
    ensures forall k :: 0 <= k < |ExtractLinks(t)| ==>
              && HasScheme(ExtractLinks(t)[k])
              && SchemeLen(ExtractLinks(t)[k], 0) < |ExtractLinks(t)[k]|
              && forall c :: c in ExtractLinks(t)[k] ==> !IsSpace(c)
  {
    var sp := Spans(t);
    var links := ExtractLinks(t);
    SpansAreMatches(t);
    forall k | 0 <= k < |links|
      ensures HasScheme(links[k]) && SchemeLen(links[k], 0) < |links[k]|
      ensures forall c :: c in links[k] ==> !IsSpace(c)
    {
      var s, e := sp[k].start, sp[k].end;
      assert IsMatch(t, s, e);
      SchemePrefix(t, s, e);
    }
  }

  /** The scheme found at `s` in `t` is found at 0 in `t[s..e]`, and the whole span is whitespace-free. */
  lemma SchemePrefix(t: string, s: nat, e: nat)
    requires IsMatch(t, s, e)
    ensures SchemeLen(t[s..e], 0) == SchemeLen(t, s)
    ensures forall c :: c in t[s..e] ==> !IsSpace(c)
  {
    var u := t[s..e];
    var n := SchemeLen(t, s);
    assert forall k :: 0 <= k < n ==> u[k] == t[s + k];
    if n == 7 {
      assert CaseInsensitiveAt(u, 0, "http");
      assert u[4..7] == t[s + 4..s + 7];
    } else {
      assert CaseInsensitiveAt(u, 0, "https");
      assert u[5..8] == t[s + 5..s + 8];
      assert !(CaseInsensitiveAt(u, 0, "http") && u[4..7] == "://");
    }
    SchemeNotSpace(t, s);
    forall c | c in u
      ensures !IsSpace(c)
    {
      var k :| 0 <= k < |u| && u[k] == c;
      assert c == t[s + k];
    }
  }

  /** The characters of a scheme are not whitespace. */
  lemma SchemeNotSpace(t: string, i: nat)
    requires SchemeLen(t, i) > 0
    ensures forall k :: i <= k < i + SchemeLen(t, i) ==> !IsSpace(t[k])
  {
    var n := SchemeLen(t, i);
    var lit := if n == 7 then "http://" else "https://";
    forall k | i <= k < i + n
      ensures !IsSpace(t[k])
    {
      var d := k - i;
      if d < n - 3 {
        assert Lower(t[i + d]) == lit[d];
        assert !IsSpace(lit[d]);
      } else {
        assert t[k] == t[i + n - 3..i + n][d - (n - 3)];
      }
    }
  }

  /** Links are returned in text order: each extracted link is the text of its span, spans ascending. */
  lemma LinksInTextOrder(t: string)
    ensures forall k :: 0 <= k < |ExtractLinks(t)| ==>
              ExtractLinks(t)[k] == t[Spans(t)[k].start..Spans(t)[k].end]
    ensures forall k :: 0 <= k < |Spans(t)| - 1 ==> Spans(t)[k].end < Spans(t)[k + 1].start
  {
    SpansOrdered(t);
  }

  /** Any text in which a match starts has at least one link. */
  lemma MatchGivesLink(t: string, p: nat)
    requires p < |t| && MatchAt(t, p).Some?
    ensures ExtractLinks(t) != []
  {
    var k := SpansComplete(t, p);
  }
}
