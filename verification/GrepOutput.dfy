/** The whole grep response: hits in order under one match budget, in three shapes that agree. */
module GrepOutput {
  import opened Numbers
  import opened Text
  import opened Tokens
  import opened Render
  import opened Grep

  /** Matches of the hits, counted with saturation. */
  function TotalMatches(hits: seq<FileHit>): nat {
    var n := |hits|;
    if n == 0 then 0 else SaturatingAdd(TotalMatches(hits[..n - 1]), hits[n - 1].matches)
  }

  /** The budget was open before each of the first `k` hits. */
  ghost predicate Open(hits: seq<FileHit>, budget: nat, k: nat)
    requires k <= |hits|
  {
    forall j :: 0 <= j < k ==> TotalMatches(hits[..j]) < budget
  }

  /** The first `k` hits are reported: the budget was open before each of them, and closed if any is left. */
  ghost predicate Reported(hits: seq<FileHit>, budget: nat, k: nat) {
    && k <= |hits|
    && Open(hits, budget, k)
    && (k < |hits| ==> TotalMatches(hits[..k]) >= budget)
  }

  datatype Summary = Summary(matches: nat, truncated: bool, skippedBinary: nat, skippedInvalidUtf8: nat)

  function RenderBool(b: bool): Bytes {
    if b then Ascii("true") else Ascii("false")
  }

  function RenderSummary(s: Summary): Bytes {
    Ascii("[hashline matches=") + (Decimal(s.matches) +
    (Ascii(" truncated=") + (RenderBool(s.truncated) +
    (Ascii(" skipped_binary=") + (Decimal(s.skippedBinary) +
    (Ascii(" skipped_invalid_utf8=") + (Decimal(s.skippedInvalidUtf8) + CLOSE)))))))
  }

  /** What a hit contributes in each mode. */
  function Item(mode: OutputMode, hit: FileHit): Bytes {
    match mode
    case Content => hit.header + [LF] + hit.body
    case FilesWithMatches => hit.rel + [LF]
    case Count => hit.rel + Ascii(": ") + Decimal(hit.matches) + [LF]
  }

  /** Items in order; content sections, and the summary after them, are set off by one LF. */
  function Listing(mode: OutputMode, hits: seq<FileHit>): Bytes {
    var n := |hits|;
    if n == 0 then []
    else Listing(mode, hits[..n - 1]) + (if n > 1 && mode == Content then [LF] else []) + Item(mode, hits[n - 1])
  }

  function EndedListing(mode: OutputMode, hits: seq<FileHit>): Bytes {
    Listing(mode, hits) + (if |hits| > 0 && mode == Content then [LF] else [])
  }

  function Response(mode: OutputMode, hits: seq<FileHit>, summary: Summary): Bytes {
    EndedListing(mode, hits) + RenderSummary(summary)
  }

  lemma ListingNotEmpty(mode: OutputMode, hits: seq<FileHit>)
    ensures Listing(mode, hits) == [] <==> hits == []
  {
  }

  /** One item more, as the loop appends it. */
  lemma ListingGrows(mode: OutputMode, hits: seq<FileHit>, i: nat)
    requires i < |hits|
    ensures Listing(mode, hits[..i + 1]) ==
      Listing(mode, hits[..i]) + (if i > 0 && mode == Content then [LF] else []) + Item(mode, hits[i])
    ensures TotalMatches(hits[..i + 1]) == SaturatingAdd(TotalMatches(hits[..i]), hits[i].matches)
  {
    assert hits[..i + 1][..i] == hits[..i];
  }

  /** The response to the first `k` hits. */
  ghost predicate Responds(
    out: Bytes, mode: OutputMode, hits: seq<FileHit>, skippedBinary: nat, skippedInvalidUtf8: nat, k: nat)
  {
    k <= |hits| && out == Response(mode, hits[..k],
      Summary(TotalMatches(hits[..k]), k < |hits|, skippedBinary, skippedInvalidUtf8))
  }

  /** Appends one hit in the requested shape. */
  method AppendHit(mode: OutputMode, before: Bytes, hit: FileHit) returns (out: Bytes)
    ensures out == before + (if before != [] && mode == Content then [LF] else []) + Item(mode, hit)
  {
    out := before;
    match mode {
      case Content =>
        if out != [] {
          out := out + [LF];
        }
        out := out + (hit.header + [LF] + hit.body);
      case FilesWithMatches =>
        out := out + (hit.rel + [LF]);
      case Count =>
        out := out + (hit.rel + Ascii(": ") + Decimal(hit.matches) + [LF]);
    }
  }

  /** The listing with one hit more. */
  method AppendNext(mode: OutputMode, listing: Bytes, hits: seq<FileHit>, i: nat) returns (out: Bytes)
    requires i < |hits| && listing == Listing(mode, hits[..i])
    ensures out == Listing(mode, hits[..i + 1])
  {
    ListingNotEmpty(mode, hits[..i]);
    ListingGrows(mode, hits, i);
    out := AppendHit(mode, listing, hits[i]);
  }

  /** The loop over the hits, stopped by the budget. */
  method ListHits(mode: OutputMode, hits: seq<FileHit>, maxMatches: nat)
    returns (out: Bytes, shownMatches: nat, truncated: bool, k: nat)
    ensures Reported(hits, maxMatches, k) && truncated == (k < |hits|)
    ensures out == Listing(mode, hits[..k]) && shownMatches == TotalMatches(hits[..k])
  {
    out, shownMatches, truncated, k := [], 0, false, 0;
    while k < |hits|
      invariant k <= |hits| && !truncated
      invariant out == Listing(mode, hits[..k]) && shownMatches == TotalMatches(hits[..k])
      invariant Open(hits, maxMatches, k)
    {
      if shownMatches >= maxMatches {
        truncated := true;
        break;
      }
      ListingGrows(mode, hits, k);
      out := AppendNext(mode, out, hits, k);
      shownMatches := SaturatingAdd(shownMatches, hits[k].matches);
      k := k + 1;
    }
  }

  method EndListing(mode: OutputMode, listing: Bytes, ghost hits: seq<FileHit>) returns (out: Bytes)
    requires listing == Listing(mode, hits)
    ensures out == EndedListing(mode, hits)
  {
    ListingNotEmpty(mode, hits);
    out := listing;
    if out != [] && mode == Content {
      out := out + [LF];
    }
  }

  method AssembleOutput(
    mode: OutputMode, hits: seq<FileHit>, maxMatches: nat, skippedBinary: nat, skippedInvalidUtf8: nat)
    returns (out: Bytes)
    ensures exists k: nat ::
      Reported(hits, maxMatches, k) && Responds(out, mode, hits, skippedBinary, skippedInvalidUtf8, k)
  {
    var shownMatches, truncated, k;
    out, shownMatches, truncated, k := ListHits(mode, hits, maxMatches);
    out := EndListing(mode, out, hits[..k]);
    var summary := Summary(shownMatches, truncated, skippedBinary, skippedInvalidUtf8);
    out := out + RenderSummary(summary);
    assert Responds(out, mode, hits, skippedBinary, skippedInvalidUtf8, k);
  }

  lemma {:induction false} TotalGrows(hits: seq<FileHit>, j: nat, k: nat)
    requires j <= k <= |hits|
    ensures TotalMatches(hits[..j]) <= TotalMatches(hits[..k])
    decreases k
  {
    TotalIsWord(hits[..j]);
    if j < k {
      TotalGrows(hits, j, k - 1);
      assert hits[..k][..k - 1] == hits[..k - 1];
    }
  }

  lemma TotalIsWord(hits: seq<FileHit>)
    ensures TotalMatches(hits) <= U64_MAX
  {
  }

  /** The same files with the same match counts, whatever else the hits carry. */
  ghost predicate SameFiles(a: seq<FileHit>, b: seq<FileHit>) {
    |a| == |b| && forall i :: 0 <= i < |a| ==> a[i].rel == b[i].rel && a[i].matches == b[i].matches
  }

  lemma {:induction false} SameTotals(a: seq<FileHit>, b: seq<FileHit>)
    requires SameFiles(a, b)
    ensures TotalMatches(a) == TotalMatches(b)
  {
    if |a| > 0 {
      SameTotals(a[..|a| - 1], b[..|b| - 1]);
    }
  }

  /** The budget decides alike in every mode: the same files, the same total and the same truncation flag. */
  lemma ModesAgree(a: seq<FileHit>, b: seq<FileHit>, budget: nat, j: nat, k: nat)
    requires SameFiles(a, b) && Reported(a, budget, j) && Reported(b, budget, k)
    ensures j == k && SameFiles(a[..j], b[..k]) && TotalMatches(a[..j]) == TotalMatches(b[..k])
    ensures (j < |a|) == (k < |b|)
  {
    SameTotals(a[..Min(j, k)], b[..Min(j, k)]);
  }

  /** At most the last reported file goes over the budget, and hits are withheld only when it is used up. */
  lemma BudgetKept(hits: seq<FileHit>, budget: nat, k: nat)
    requires Reported(hits, budget, k)
    ensures k > 0 ==> TotalMatches(hits[..k]) < budget + hits[k - 1].matches
    ensures TotalMatches(hits) < budget ==> k == |hits|
    ensures k < |hits| ==> TotalMatches(hits) >= budget
  {
    assert hits[..|hits|] == hits;
    TotalGrows(hits, k, |hits|);
    if k > 0 {
      assert hits[..k][..k - 1] == hits[..k - 1];
    }
  }
}
