/** The page-range resolver shared by the rotate and split tools: a free-text
    list such as "1-3, 5" and the document's page count become the ascending
    list of distinct 0-based page indices it names. Bad tokens are skipped,
    ranges are clamped to the document, and nothing is ever an error here:
    the callers treat an empty outcome as one. */
module PageRange {
  import opened Wrappers
  import opened JsText
  import opened JsArray

  /** Math.max and Math.min on two numbers. */
  function Max(a: int, b: int): int {
    if a >= b then a else b
  }

  function Min(a: int, b: int): int {
    if a <= b then a else b
  }

  /** The integers from `lo` up to, but not including, `hi`. */
  function Interval(lo: int, hi: int): (r: set<int>)
    ensures forall p :: p in r <==> lo <= p < hi
    decreases hi - lo
  {
    if lo >= hi then {} else Interval(lo, hi - 1) + {hi - 1}
  }

  /** The 0-based pages of a range token whose two ends parsed as `start`
      and `end`: each page number i with max(1, start) <= i <= min(maxPages,
      end), shifted down by one. */
  function RangePages(start: int, end: int, maxPages: nat): (r: set<int>)
    ensures forall p :: p in r ==> 0 <= p < maxPages
  {
    Interval(Max(1, start) - 1, Min(maxPages, end))
  }

  /** A token's two ends: the first two pieces of splitting it on every '-',
      each trimmed and read with parseInt. */
  function RangeEnds(part: string): (Option<int>, Option<int>)
    requires '-' in part
  {
    var ends := Split(part, '-');
    (ParseInt(Trim(ends[0])), ParseInt(Trim(ends[1])))
  }

  /** The pages one comma-separated token contributes. A trimmed token with a
      '-' is a range and contributes nothing unless both ends parse; any
      other token is a single page number, kept when it lies in
      1..maxPages. */
  function TokenPages(token: string, maxPages: nat): (r: set<int>)
    ensures forall p :: p in r ==> 0 <= p < maxPages
  {
    var part := Trim(token);
    if '-' in part then
      match RangeEnds(part)
      case (Some(start), Some(end)) => RangePages(start, end, maxPages)
      case _ => {}
    else
      match ParseInt(part)
      case Some(n) => if 1 <= n <= maxPages then {n - 1} else {}
      case None => {}
  }

  /** The union of what `pagesOf` gives for each of `tokens`, taken in
      order: the set parsePageRange accumulates, for any per-token rule. */
  function UnionOf(tokens: seq<string>, pagesOf: (string, nat) -> set<int>, maxPages: nat): set<int> {
    if tokens == [] then {}
    else UnionOf(tokens[..|tokens| - 1], pagesOf, maxPages) + pagesOf(tokens[|tokens| - 1], maxPages)
  }

  /** The union of the contributions of `tokens`. */
  function TokensPages(tokens: seq<string>, maxPages: nat): (r: set<int>)
    ensures forall p :: p in r ==> 0 <= p < maxPages
  {
    UnionOfBounded(tokens, TokenPages, maxPages);
    UnionOf(tokens, TokenPages, maxPages)
  }

  /** The set of 0-based pages that `rangeString` names in a document of
      `maxPages` pages: the union over its comma-separated tokens. */
  function Resolve(rangeString: string, maxPages: nat): (r: set<int>)
    ensures forall p :: p in r ==> 0 <= p < maxPages
    ensures maxPages == 0 ==> r == {}
  {
    TokensPages(Split(rangeString, ','), maxPages)
  }

  /** A range token whose two ends both parse contributes exactly the
      clamped interval between them. */
  lemma RangeTokenPages(token: string, maxPages: nat, start: int, end: int)
    requires '-' in Trim(token)
    requires RangeEnds(Trim(token)) == (Some(start), Some(end))
    ensures TokenPages(token, maxPages) == Interval(Max(1, start) - 1, Min(maxPages, end))
  {
  }

  /** A range token with an end that does not parse contributes nothing. */
  lemma SkippedRangeToken(token: string, maxPages: nat)
    requires '-' in Trim(token)
    requires RangeEnds(Trim(token)).0.None? || RangeEnds(Trim(token)).1.None?
    ensures TokenPages(token, maxPages) == {}
  {
  }

  /** A token without a '-' contributes its page when that page exists. */
  lemma SingleTokenPages(token: string, maxPages: nat)
    requires '-' !in Trim(token)
    ensures ParseInt(Trim(token)).Some? && 1 <= ParseInt(Trim(token)).value <= maxPages ==>
      TokenPages(token, maxPages) == {ParseInt(Trim(token)).value - 1}
    ensures !(ParseInt(Trim(token)).Some? && 1 <= ParseInt(Trim(token)).value <= maxPages) ==>
      TokenPages(token, maxPages) == {}
  {
  }

  /** The members of `pages` from `lo` up to, not including, `hi`, listed
      in ascending order. */
  function Enumerate(pages: set<int>, lo: int, hi: int): (r: seq<int>)
    ensures StrictlyAscending(r)
    ensures forall p :: p in r <==> p in pages && lo <= p < hi
    decreases hi - lo
  {
    if lo >= hi then []
    else
      var rest := Enumerate(pages, lo + 1, hi);
      PrependAscending(lo, rest);
      if lo in pages then [lo] + rest else rest
  }

  /** The list parsePageRange returns: the pages `Resolve` names, in
      ascending order. */
  function PageList(rangeString: string, maxPages: nat): (r: seq<int>)
    ensures StrictlyAscending(r)
    ensures forall p :: p in r <==> p in Resolve(rangeString, maxPages)
    ensures forall k :: 0 <= k < |r| ==> 0 <= r[k] < maxPages
  {
    var r := Enumerate(Resolve(rangeString, maxPages), 0, maxPages);
    assert forall k :: 0 <= k < |r| ==> r[k] in r;
    r
  }

  /** parsePageRange: one pass over the tokens adds each contribution to a
      Set, which is then turned into an array and sorted numerically. The
      outcome is strictly ascending and holds exactly the pages `Resolve`
      names, so it is `PageList`. */
  method ParsePageRange(rangeString: string, maxPages: nat) returns (result: seq<int>)
    ensures StrictlyAscending(result)
    ensures forall p :: p in result <==> p in Resolve(rangeString, maxPages)
    ensures result == PageList(rangeString, maxPages)
  {
    var pages: seq<int> := [];
    var parts := Split(rangeString, ',');
    for k := 0 to |parts|
      invariant Distinct(pages)
      invariant forall p :: p in pages <==> p in TokensPages(parts[..k], maxPages)
    {
      assert parts[..k + 1] == parts[..k] + [parts[k]];
      pages := AddTokenPages(pages, parts[k], maxPages);
    }
    assert parts[..|parts|] == parts;
    result := SortAscending(pages);
    assert forall p :: p in result <==> p in multiset(pages);
    StrictlyAscendingUnique(result, PageList(rangeString, maxPages));
  }

  /** The body of parsePageRange's loop for one token: trim it; a token with
      a '-' is a range whose first two pieces are parsed, and which is
      skipped if either is NaN, otherwise every page of the clamped range is
      added; any other token is parsed as one page number and added when it
      lies in 1..maxPages. */
  method AddTokenPages(pages: seq<int>, token: string, maxPages: nat) returns (added: seq<int>)
    requires Distinct(pages)
    ensures Distinct(added)
    ensures forall p :: p in added <==> p in pages || p in TokenPages(token, maxPages)
  {
    added := pages;
    var part := Trim(token);
    if '-' in part {
      var ends := RangeEnds(part);
      if ends.0.None? || ends.1.None? {
        SkippedRangeToken(token, maxPages);
        return;
      }
      var lo, hi := Max(1, ends.0.value), Min(maxPages, ends.1.value);
      RangeTokenPages(token, maxPages, ends.0.value, ends.1.value);
      var i := lo;
      while i <= hi
        invariant lo <= i <= Max(lo, hi + 1)
        invariant Distinct(added)
        invariant forall p :: p in added <==> p in pages || lo - 1 <= p < i - 1
      {
        added := SetAdd(added, i - 1);
        i := i + 1;
      }
    } else {
      var pageNum := ParseInt(part);
      SingleTokenPages(token, maxPages);
      if pageNum.Some? && pageNum.value >= 1 && pageNum.value <= maxPages {
        var page := pageNum.value - 1;
        assert TokenPages(token, maxPages) == {page};
        added := SetAdd(added, page);
      } else {
        assert TokenPages(token, maxPages) == {};
      }
    }
  }

  /** The decimal string of a number is a token that trim() leaves alone
      and that holds neither a '-' nor a ','. */
  lemma NumeralToken(n: nat)
    ensures Trim(NatToString(n)) == NatToString(n)
    ensures '-' !in NatToString(n) && ',' !in NatToString(n)
  {
    var s := NatToString(n);
    assert IsRadixDigit(s[0], 10) && IsRadixDigit(s[|s| - 1], 10);
    TrimUnchanged(s);
  }

  /** A token that is a page number written in decimal contributes that
      page, 0-based, exactly when it lies in 1..maxPages. */
  lemma SingleNumberToken(n: nat, maxPages: nat)
    ensures TokenPages(NatToString(n), maxPages) == if 1 <= n <= maxPages then {n - 1} else {}
  {
    NumeralToken(n);
    ParseIntOfNatToString(n, []);
    assert NatToString(n) + [] == NatToString(n);
  }

  /** The token "a-b" with both ends written in decimal contributes the
      pages max(1, a)..min(maxPages, b), 0-based: nothing when the range is
      inverted or lies wholly outside the document. */
  lemma RangeNumberToken(a: nat, b: nat, maxPages: nat)
    ensures TokenPages(NatToString(a) + "-" + NatToString(b), maxPages)
         == Interval(Max(1, a) - 1, Min(maxPages, b))
  {
    var sa, sb := NatToString(a), NatToString(b);
    var token := sa + "-" + sb;
    NumeralToken(a);
    NumeralToken(b);
    assert token[0] == sa[0] && token[|token| - 1] == sb[|sb| - 1];
    assert IsRadixDigit(sa[0], 10) && IsRadixDigit(sb[|sb| - 1], 10);
    TrimUnchanged(token);
    assert token[|sa|] == '-';
    SplitCons(sa, '-', sb);
    SplitPieces(sb, '-');
    assert Split(token, '-') == [sa, sb];
    ParseIntOfNatToString(a, []);
    ParseIntOfNatToString(b, []);
    assert sa + [] == sa && sb + [] == sb;
    RangeTokenPages(token, maxPages, a, b);
  }

  /** A token that starts with '-' once trimmed, such as "-3", has an empty
      first end, which parses as NaN, so it contributes nothing. */
  lemma LeadingDashToken(token: string, maxPages: nat)
    requires Trim(token) != [] && Trim(token)[0] == '-'
    ensures TokenPages(token, maxPages) == {}
  {
    var part := Trim(token);
    assert part == [part[0]] + part[1..];
    assert Split(part, '-')[0] == [];
    assert TrimStart([]) == [];
    assert ParseInt(Trim([])) == None;
  }

  /** A blank token contributes nothing. */
  lemma BlankToken(token: string, maxPages: nat)
    requires AllWhitespace(token)
    ensures TokenPages(token, maxPages) == {}
  {
    TrimCuts(token);
    assert TrimStart([]) == [];
  }

  /** White space around a token does not change what it contributes. */
  lemma PaddedToken(w1: string, token: string, w2: string, maxPages: nat)
    requires AllWhitespace(w1) && AllWhitespace(w2)
    ensures TokenPages(w1 + token + w2, maxPages) == TokenPages(token, maxPages)
  {
    TrimPadded(w1, token, w2);
  }

  /** Two range tokens whose ends read the same contribute the same
      pages. */
  lemma SameEndsSamePages(token1: string, token2: string, maxPages: nat)
    requires '-' in Trim(token1) && '-' in Trim(token2)
    requires RangeEnds(Trim(token1)) == RangeEnds(Trim(token2))
    ensures TokenPages(token1, maxPages) == TokenPages(token2, maxPages)
  {
  }

  /** White space holds no '-'. */
  lemma NoDashInWhitespace(w: string)
    requires AllWhitespace(w)
    ensures '-' !in w
  {
    assert !IsWhitespace('-');
  }

  /** White space on either side of a range's '-' does not change what the
      range contributes: "a - b" is "a-b". */
  lemma SpacedDash(a: string, w1: string, w2: string, b: string, maxPages: nat)
    requires a != [] && !IsWhitespace(a[0]) && '-' !in a
    requires b != [] && !IsWhitespace(b[|b| - 1])
    requires AllWhitespace(w1) && AllWhitespace(w2)
    ensures TokenPages(a + w1 + "-" + w2 + b, maxPages) == TokenPages(a + "-" + b, maxPages)
  {
    var spaced, tight := a + w1 + "-" + w2 + b, a + "-" + b;
    assert Trim(spaced) == spaced by {
      assert spaced[0] == a[0] && spaced[|spaced| - 1] == b[|b| - 1];
      TrimUnchanged(spaced);
    }
    assert Trim(tight) == tight by {
      assert tight[0] == a[0] && tight[|tight| - 1] == b[|b| - 1];
      TrimUnchanged(tight);
    }
    assert spaced[|a + w1|] == '-' && tight[|a|] == '-';
    var pieces := Split(b, '-');
    assert Split(spaced, '-') == [a + w1] + ([w2 + pieces[0]] + pieces[1..]) by {
      NoDashInWhitespace(w1);
      NoDashInWhitespace(w2);
      assert '-' !in a + w1;
      assert spaced == (a + w1) + ['-'] + (w2 + b);
      SplitCons(a + w1, '-', w2 + b);
      SplitPrepend(w2, b, '-');
    }
    assert Split(tight, '-') == [a] + pieces by {
      SplitCons(a, '-', b);
    }
    assert Trim(a + w1) == Trim(a) by {
      TrimPadded([], a, w1);
      assert [] + a + w1 == a + w1;
    }
    assert Trim(w2 + pieces[0]) == Trim(pieces[0]) by {
      TrimPadded(w2, pieces[0], []);
      assert w2 + pieces[0] + [] == w2 + pieces[0];
    }
    SameEndsSamePages(spaced, tight, maxPages);
  }

  /** A range text of white space only names no page. */
  lemma BlankRange(rangeString: string, maxPages: nat)
    requires AllWhitespace(rangeString)
    ensures Resolve(rangeString, maxPages) == {}
  {
    assert ',' !in rangeString by {
      assert !IsWhitespace(',');
    }
    SplitPieces(rangeString, ',');
    BlankToken(rangeString, maxPages);
    assert [rangeString][..0] == [];
    assert UnionOf([rangeString], TokenPages, maxPages) == TokenPages(rangeString, maxPages);
    assert Resolve(rangeString, maxPages) == TokensPages([rangeString], maxPages);
  }

  /** A union bounds its pages when every token's pages are bounded. */
  lemma {:induction false} UnionOfBounded(tokens: seq<string>, pagesOf: (string, nat) -> set<int>, maxPages: nat)
    requires forall t, p :: p in pagesOf(t, maxPages) ==> 0 <= p < maxPages
    ensures forall p :: p in UnionOf(tokens, pagesOf, maxPages) ==> 0 <= p < maxPages
  {
    if tokens != [] {
      UnionOfBounded(tokens[..|tokens| - 1], pagesOf, maxPages);
    }
  }

  /** A page is in the union exactly when one of the tokens contributes
      it. */
  lemma {:induction false} UnionOfMember(tokens: seq<string>, pagesOf: (string, nat) -> set<int>, maxPages: nat, p: int)
    ensures p in UnionOf(tokens, pagesOf, maxPages)
        <==> exists k :: 0 <= k < |tokens| && p in pagesOf(tokens[k], maxPages)
  {
    if tokens != [] {
      var init := tokens[..|tokens| - 1];
      UnionOfMember(init, pagesOf, maxPages, p);
      if p in UnionOf(init, pagesOf, maxPages) {
        var k :| 0 <= k < |init| && p in pagesOf(init[k], maxPages);
        assert tokens[k] == init[k];
      }
      if exists k :: 0 <= k < |tokens| && p in pagesOf(tokens[k], maxPages) {
        var k :| 0 <= k < |tokens| && p in pagesOf(tokens[k], maxPages);
        if k < |init| {
          assert init[k] == tokens[k];
        }
      }
    }
  }

  /** The union depends only on which tokens occur: reordering or repeating
      tokens changes nothing. */
  lemma UnionOfSameTokens(tokens1: seq<string>, tokens2: seq<string>, pagesOf: (string, nat) -> set<int>, maxPages: nat)
    requires forall t :: t in tokens1 <==> t in tokens2
    ensures UnionOf(tokens1, pagesOf, maxPages) == UnionOf(tokens2, pagesOf, maxPages)
  {
    forall p ensures p in UnionOf(tokens1, pagesOf, maxPages) <==> p in UnionOf(tokens2, pagesOf, maxPages) {
      UnionOfMember(tokens1, pagesOf, maxPages, p);
      UnionOfMember(tokens2, pagesOf, maxPages, p);
      if exists k :: 0 <= k < |tokens1| && p in pagesOf(tokens1[k], maxPages) {
        var k :| 0 <= k < |tokens1| && p in pagesOf(tokens1[k], maxPages);
        assert tokens1[k] in tokens2;
      }
      if exists k :: 0 <= k < |tokens2| && p in pagesOf(tokens2[k], maxPages) {
        var k :| 0 <= k < |tokens2| && p in pagesOf(tokens2[k], maxPages);
        assert tokens2[k] in tokens1;
      }
    }
  }

  /** Tokens are handled one after another with nothing carried over but
      the set: two runs of tokens give the union of their pages. */
  lemma {:induction false} UnionOfConcat(tokens1: seq<string>, tokens2: seq<string>, pagesOf: (string, nat) -> set<int>, maxPages: nat)
    ensures UnionOf(tokens1 + tokens2, pagesOf, maxPages)
         == UnionOf(tokens1, pagesOf, maxPages) + UnionOf(tokens2, pagesOf, maxPages)
  {
    if tokens2 != [] {
      var init := tokens2[..|tokens2| - 1];
      UnionOfConcat(tokens1, init, pagesOf, maxPages);
      var all := tokens1 + tokens2;
      assert all[..|all| - 1] == tokens1 + init;
    } else {
      assert tokens1 + tokens2 == tokens1;
    }
  }

  /** Reordering or repeating the tokens of a range selects the same
      pages. */
  lemma SameTokensSamePages(tokens1: seq<string>, tokens2: seq<string>, maxPages: nat)
    requires forall t :: t in tokens1 <==> t in tokens2
    ensures TokensPages(tokens1, maxPages) == TokensPages(tokens2, maxPages)
  {
    UnionOfSameTokens(tokens1, tokens2, TokenPages, maxPages);
  }

  /** A token that contributes nothing, such as one that fails to parse, is
      skipped without disturbing the tokens before or after it. */
  lemma SkippedTokenIgnored(before: seq<string>, token: string, after: seq<string>, maxPages: nat)
    requires TokenPages(token, maxPages) == {}
    ensures TokensPages(before + [token] + after, maxPages) == TokensPages(before + after, maxPages)
  {
    UnionOfConcat(before + [token], after, TokenPages, maxPages);
    UnionOfConcat(before, [token], TokenPages, maxPages);
    UnionOfConcat(before, after, TokenPages, maxPages);
    assert [token][..0] == [];
  }

  /** Range text written as comma-separated tokens names the union of the
      tokens' pages. */
  lemma ResolveJoin(tokens: seq<string>, maxPages: nat)
    requires |tokens| >= 1
    requires forall k :: 0 <= k < |tokens| ==> ',' !in tokens[k]
    ensures Resolve(Join(tokens, ","), maxPages) == TokensPages(tokens, maxPages)
  {
    SplitJoin(tokens, ',');
  }

  /** Writing the same tokens in another order, or some of them twice,
      selects the same pages. */
  lemma ResolveReordered(tokens1: seq<string>, tokens2: seq<string>, maxPages: nat)
    requires |tokens1| >= 1 && |tokens2| >= 1
    requires forall k :: 0 <= k < |tokens1| ==> ',' !in tokens1[k]
    requires forall k :: 0 <= k < |tokens2| ==> ',' !in tokens2[k]
    requires forall t :: t in tokens1 <==> t in tokens2
    ensures Resolve(Join(tokens1, ","), maxPages) == Resolve(Join(tokens2, ","), maxPages)
  {
    ResolveJoin(tokens1, maxPages);
    ResolveJoin(tokens2, maxPages);
    SameTokensSamePages(tokens1, tokens2, maxPages);
  }

  /** "1-N" on a document of N pages names every page. */
  lemma FullRange(n: nat)
    ensures Resolve("1-" + NatToString(n), n) == Interval(0, n)
  {
    var token := NatToString(1) + "-" + NatToString(n);
    assert NatToString(1) == "1";
    assert "1-" + NatToString(n) == token;
    RangeNumberToken(1, n, n);
    NumeralToken(n);
    assert ',' !in token;
    SplitPieces(token, ',');
    assert [token][..0] == [];
  }

  /** The 1-based decimal numerals of a list of 0-based pages: the list
      written back the way a user types it. */
  function Numerals(pages: seq<int>): (r: seq<string>)
    requires forall k :: 0 <= k < |pages| ==> pages[k] >= 0
    ensures |r| == |pages|
  {
    seq(|pages|, k requires 0 <= k < |pages| => NatToString(pages[k] + 1))
  }

  /** Writing the resolved pages back as their page numbers joined by
      commas names the same pages again, so it resolves to the same list. */
  lemma PageListRoundTrip(rangeString: string, maxPages: nat)
    ensures var text := Join(Numerals(PageList(rangeString, maxPages)), ",");
      Resolve(text, maxPages) == Resolve(rangeString, maxPages)
      && PageList(text, maxPages) == PageList(rangeString, maxPages)
  {
    var pages := PageList(rangeString, maxPages);
    var tokens := Numerals(pages);
    var text := Join(tokens, ",");
    if pages == [] {
      assert text == [];
      BlankRange(text, maxPages);
    } else {
      forall k | 0 <= k < |tokens|
        ensures ',' !in tokens[k]
        ensures TokenPages(tokens[k], maxPages) == {pages[k]}
      {
        NumeralToken(pages[k] + 1);
        SingleNumberToken(pages[k] + 1, maxPages);
      }
      ResolveJoin(tokens, maxPages);
      forall p ensures p in Resolve(text, maxPages) <==> p in Resolve(rangeString, maxPages) {
        UnionOfMember(tokens, TokenPages, maxPages, p);
        if p in pages {
          var k :| 0 <= k < |pages| && pages[k] == p;
          assert p in TokenPages(tokens[k], maxPages);
        }
      }
      assert Resolve(text, maxPages) == Resolve(rangeString, maxPages);
    }
  }

  /** The list handed to the PDF library does not depend on the order in
      which the tokens were typed, nor on repeated tokens. */
  lemma PageListReordered(tokens1: seq<string>, tokens2: seq<string>, maxPages: nat)
    requires |tokens1| >= 1 && |tokens2| >= 1
    requires forall k :: 0 <= k < |tokens1| ==> ',' !in tokens1[k]
    requires forall k :: 0 <= k < |tokens2| ==> ',' !in tokens2[k]
    requires forall t :: t in tokens1 <==> t in tokens2
    ensures PageList(Join(tokens1, ","), maxPages) == PageList(Join(tokens2, ","), maxPages)
  {
    ResolveReordered(tokens1, tokens2, maxPages);
  }
}
