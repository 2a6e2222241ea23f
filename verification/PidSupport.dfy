/**
 * Mode 01 support bitmaps: how a PID is looked up in a page, which pages are
 * queried, and how the merged view relates to each responder's own pages.
 */
module PidSupport {
  import opened Prelude

  datatype SupportStatus = Supported | Unsupported | Unknown

  /** One responder's answer to a support-page request. */
  datatype PageResponse = PageResponse(responder: Option<string>, bitmap: bv32)

  /** The answers to one request; a reply without any is an error, not a page. */
  type PageAnswers = rs: seq<PageResponse> | rs != [] witness [PageResponse(None, 0)]

  /** The recorded evidence of such an answer. */
  datatype Discovered = Discovered(page: nat, responder: Option<string>, bitmap: bv32)

  /** The merged bitmaps of pages 00, 20, 40, .. and the evidence behind them. */
  datatype Support = Support(pages: seq<bv32>, discovery: seq<Discovered>)

  predicate HasBit(bitmap: bv32, shift: nat)
    requires shift < 32
  {
    bitmap & ((1 as bv32) << shift) != 0
  }

  // ---------------------------------------------------------------------
  // Three formulas for the position of a PID
  // ---------------------------------------------------------------------

  /** The page that covers a PID: 1..32 on page 00, 33..64 on page 20, .. */
  function PageOf(pid: nat): nat
    requires pid >= 1
  {
    (pid - 1) / 32 * 32
  }

  /** Used by the merged status: offset 1..32 inside the page. */
  function StatusShift(pid: nat): nat
    requires pid >= 1
  {
    32 - ((pid - 1) % 32 + 1)
  }

  /** Used when following continuation bits. */
  function BitmapShift(pid: nat): nat {
    var offset := pid % 32;
    if offset == 0 then 0 else 32 - offset
  }

  /** Used by the per-responder capability. */
  function CapabilityShift(pid: nat): nat
    requires pid >= 1
  {
    31 - (pid - 1) % 32
  }

  /** All three agree; and the continuation PID of a page is its last bit. */
  lemma ShiftsAgree(pid: nat)
    requires 1 <= pid <= 255
    ensures StatusShift(pid) == BitmapShift(pid) == CapabilityShift(pid) < 32
    ensures PageOf(pid) / 32 == (pid - 1) / 32
    ensures pid % 32 == 0 ==> PageOf(pid) + 32 == pid && BitmapShift(pid) == 0
  {
  }

  function FromBytes(b0: bv8, b1: bv8, b2: bv8, b3: bv8): bv32 {
    (b0 as bv32 << 24) | (b1 as bv32 << 16) | (b2 as bv32 << 8) | b3 as bv32
  }

  /** The continuation test on the payload byte is the test on the bitmap. */
  lemma ContinuationByte(b0: bv8, b1: bv8, b2: bv8, b3: bv8)
    ensures b3 & 1 != 0 <==> HasBit(FromBytes(b0, b1, b2, b3), 0)
  {
  }

  /** The bit of one payload byte, counted from the highest. */
  predicate ByteHasBit(b: bv8, k: nat)
    requires k < 8
  {
    b & (0x80 >> k) != 0
  }

  lemma FirstByte(b0: bv8, b1: bv8, b2: bv8, b3: bv8, k: nat)
    requires k < 8
    ensures HasBit(FromBytes(b0, b1, b2, b3), 31 - k) <==> ByteHasBit(b0, k)
  {
    if k == 0 {
    } else if k == 1 {
    } else if k == 2 {
    } else if k == 3 {
    } else if k == 4 {
    } else if k == 5 {
    } else if k == 6 {
    } else {
      assert k == 7;
    }
  }

  lemma SecondByte(b0: bv8, b1: bv8, b2: bv8, b3: bv8, k: nat)
    requires k < 8
    ensures HasBit(FromBytes(b0, b1, b2, b3), 23 - k) <==> ByteHasBit(b1, k)
  {
    if k == 0 {
    } else if k == 1 {
    } else if k == 2 {
    } else if k == 3 {
    } else if k == 4 {
    } else if k == 5 {
    } else if k == 6 {
    } else {
      assert k == 7;
    }
  }

  lemma ThirdByte(b0: bv8, b1: bv8, b2: bv8, b3: bv8, k: nat)
    requires k < 8
    ensures HasBit(FromBytes(b0, b1, b2, b3), 15 - k) <==> ByteHasBit(b2, k)
  {
    if k == 0 {
    } else if k == 1 {
    } else if k == 2 {
    } else if k == 3 {
    } else if k == 4 {
    } else if k == 5 {
    } else if k == 6 {
    } else {
      assert k == 7;
    }
  }

  lemma LastByte(b0: bv8, b1: bv8, b2: bv8, b3: bv8, k: nat)
    requires k < 8
    ensures HasBit(FromBytes(b0, b1, b2, b3), 7 - k) <==> ByteHasBit(b3, k)
  {
    if k == 0 {
    } else if k == 1 {
    } else if k == 2 {
    } else if k == 3 {
    } else if k == 4 {
    } else if k == 5 {
    } else if k == 6 {
    } else {
      assert k == 7;
    }
  }

  /** The bits of a bitmap from the highest on are those of its bytes in order. */
  lemma BitAtPlace(b0: bv8, b1: bv8, b2: bv8, b3: bv8, place: nat)
    requires place < 32
    ensures HasBit(FromBytes(b0, b1, b2, b3), 31 - place) <==>
            if place < 8 then ByteHasBit(b0, place)
            else if place < 16 then ByteHasBit(b1, place - 8)
            else if place < 24 then ByteHasBit(b2, place - 16)
            else ByteHasBit(b3, place - 24)
  {
    if place < 8 {
      FirstByte(b0, b1, b2, b3, place);
    } else if place < 16 {
      SecondByte(b0, b1, b2, b3, place - 8);
    } else if place < 24 {
      ThirdByte(b0, b1, b2, b3, place - 16);
    } else {
      LastByte(b0, b1, b2, b3, place - 24);
    }
  }

  // ---------------------------------------------------------------------
  // Merging and paging
  // ---------------------------------------------------------------------

  function Merge(responses: seq<PageResponse>): bv32 {
    if responses == [] then 0 else responses[0].bitmap | Merge(responses[1..])
  }

  lemma OrBit(a: bv32, b: bv32, m: bv32)
    ensures (a | b) & m != 0 <==> a & m != 0 || b & m != 0
  {
  }

  lemma {:induction false} MergeHasBit(responses: seq<PageResponse>, shift: nat)
    requires shift < 32
    ensures HasBit(Merge(responses), shift) <==> exists i | 0 <= i < |responses| :: HasBit(responses[i].bitmap, shift)
  {
    if responses != [] {
      MergeHasBit(responses[1..], shift);
      OrBit(responses[0].bitmap, Merge(responses[1..]), (1 as bv32) << shift);
      assert forall i | 0 < i < |responses| :: responses[i] == responses[1..][i - 1];
      if i :| 0 <= i < |responses[1..]| && HasBit(responses[1..][i].bitmap, shift) {
        assert responses[i + 1] == responses[1..][i];
      }
    }
  }

  function Recorded(page: nat, responses: seq<PageResponse>): (ds: seq<Discovered>)
    ensures |ds| == |responses|
    ensures forall i | 0 <= i < |ds| :: ds[i] == Discovered(page, responses[i].responder, responses[i].bitmap)
  {
    seq(|responses|, i requires 0 <= i < |responses| => Discovered(page, responses[i].responder, responses[i].bitmap))
  }

  /** The page to query after `page`, if its bitmap advertises one. */
  function NextPage(highest: nat, page: nat, bitmap: bv32): Option<nat> {
    if page >= highest || page + 32 > 255 || !HasBit(bitmap, BitmapShift(page + 32)) then None
    else Some(page + 32)
  }

  /** Support data as discovery builds it: `pages` is an unbroken chain from page
      00, every page was answered, and every bitmap is the union of the answers
      recorded for its page. */
  ghost predicate Built(s: Support) {
    |s.pages| <= 8
    && (forall i | 0 <= i < |s.pages| :: forall shift: nat | shift < 32 ::
          HasBit(s.pages[i], shift) <==>
          exists d | d in s.discovery :: d.page == 32 * i && HasBit(d.bitmap, shift))
    && (forall i | 0 <= i < |s.pages| :: PageAnswered(s, 32 * i))
    && (forall d | d in s.discovery :: d.page % 32 == 0 && d.page < 32 * |s.pages|)
  }

  /** Somebody answered for this page. */
  predicate PageAnswered(s: Support, page: nat) {
    exists i | 0 <= i < |s.discovery| :: s.discovery[i].page == page
  }

  /** The chain of advertised continuations, neither cut short nor overrun. */
  ghost predicate MaximalChain(highest: nat, s: Support) {
    s.pages != []
    && (forall i | 0 <= i < |s.pages| - 1 :: NextPage(highest, 32 * i, s.pages[i]) == Some(32 * (i + 1)))
    && NextPage(highest, 32 * (|s.pages| - 1), s.pages[|s.pages| - 1]) == None
  }

  function AddPage(s: Support, page: nat, responses: seq<PageResponse>): Support {
    Support(s.pages + [Merge(responses)], s.discovery + Recorded(page, responses))
  }

  lemma AddPageAnswers(s: Support, page: nat, responses: PageAnswers, q: nat)
    ensures PageAnswered(AddPage(s, page, responses), q) <==> PageAnswered(s, q) || q == page
  {
    var all := AddPage(s, page, responses).discovery;
    assert all[|s.discovery|] == Recorded(page, responses)[0];
    assert forall i | 0 <= i < |s.discovery| :: all[i] == s.discovery[i];
    assert forall i | |s.discovery| <= i < |all| :: all[i].page == page;
  }

  lemma AddPageMerges(s: Support, responses: PageAnswers, i: nat, shift: nat)
    requires Built(s) && |s.pages| < 8 && i <= |s.pages| && shift < 32
    ensures var s' := AddPage(s, 32 * |s.pages|, responses);
            HasBit(s'.pages[i], shift) <==> exists d | d in s'.discovery :: d.page == 32 * i && HasBit(d.bitmap, shift)
  {
    var n := |s.pages|;
    var s' := AddPage(s, 32 * n, responses);
    var added := Recorded(32 * n, responses);
    if i < n {
      assert s'.pages[i] == s.pages[i];
      assert forall d | d in added :: d.page != 32 * i;
      assert forall d | d in s.discovery :: d in s'.discovery;
    } else {
      MergeHasBit(responses, shift);
      assert forall d | d in s.discovery :: d.page != 32 * n;
      if k :| 0 <= k < |responses| && HasBit(responses[k].bitmap, shift) {
        assert added[k] in s'.discovery;
      }
    }
  }

  lemma AddPageKeepsBuilt(s: Support, responses: PageAnswers)
    requires Built(s) && |s.pages| < 8
    ensures Built(AddPage(s, 32 * |s.pages|, responses))
  {
    var page := 32 * |s.pages|;
    var s' := AddPage(s, page, responses);
    forall i, shift: nat | 0 <= i < |s'.pages| && shift < 32
      ensures HasBit(s'.pages[i], shift) <==>
              exists d | d in s'.discovery :: d.page == 32 * i && HasBit(d.bitmap, shift)
    {
      AddPageMerges(s, responses, i, shift);
    }
    forall i | 0 <= i < |s'.pages| ensures PageAnswered(s', 32 * i) {
      AddPageAnswers(s, page, responses, 32 * i);
    }
  }

  // ---------------------------------------------------------------------
  // The merged view and the responders' own views
  // ---------------------------------------------------------------------

  function Status(s: Support, pid: nat): SupportStatus {
    if pid == 0 then Unknown
    else
      var index := (pid - 1) / 32;
      if index >= |s.pages| then Unknown
      else if HasBit(s.pages[index], StatusShift(pid)) then Supported
      else Unsupported
  }

  function OfResponder(r: Option<string>): Discovered -> bool { (d: Discovered) => d.responder == r }

  /** One responder's pages. */
  function CapabilityOf(s: Support, r: Option<string>): seq<Discovered> {
    Filter(s.discovery, OfResponder(r))
  }

  function OnPage(page: nat): Discovered -> bool { (d: Discovered) => d.page == page }

  /** The status of a PID in one responder's pages; when its page is missing,
      the continuation bits of the page before decide. */
  function PidStatus(own: seq<Discovered>, pid: nat): SupportStatus {
    if pid == 0 then Unknown
    else
      var page := PageOf(pid);
      var here := Filter(own, OnPage(page));
      var shift := CapabilityShift(pid);
      if here != [] then
        if forall i | 0 <= i < |here| :: HasBit(here[i].bitmap, shift) then Supported
        else if forall i | 0 <= i < |here| :: !HasBit(here[i].bitmap, shift) then Unsupported
        else Unknown
      else if page == 0 then Unknown
      else
        var before := Filter(own, OnPage(page - 32));
        if before != [] && forall i | 0 <= i < |before| :: !HasBit(before[i].bitmap, 0) then Unsupported
        else Unknown
  }

  /** A PID is supported in the merged view exactly when some recorded page of
      some responder has its bit. */
  lemma MergedSupported(s: Support, pid: nat)
    requires Built(s) && 1 <= pid <= 255
    ensures Status(s, pid) == Supported <==>
            exists d | d in s.discovery :: d.page == PageOf(pid) && HasBit(d.bitmap, CapabilityShift(pid))
  {
    ShiftsAgree(pid);
    var index := (pid - 1) / 32;
    assert PageOf(pid) == 32 * index;
    if index < |s.pages| {
      assert HasBit(s.pages[index], StatusShift(pid)) <==>
             exists d | d in s.discovery :: d.page == 32 * index && HasBit(d.bitmap, StatusShift(pid));
    }
  }

  /** `d` is an answer of `r` on this page. */
  predicate Answers(d: Discovered, r: Option<string>, page: nat) { d.responder == r && d.page == page }

  lemma OwnPage(s: Support, r: Option<string>, page: nat)
    ensures forall d :: d in Filter(CapabilityOf(s, r), OnPage(page)) <==> d in s.discovery && Answers(d, r, page)
  {
    FilterIn(s.discovery, OfResponder(r));
    FilterIn(CapabilityOf(s, r), OnPage(page));
  }

  /** Some answer of `r` on this page. */
  ghost predicate AnsweredBy(s: Support, r: Option<string>, page: nat) {
    exists d | d in s.discovery :: Answers(d, r, page)
  }

  /** All answers of `r` on this page have the bit, or all lack it. */
  ghost predicate AllBits(s: Support, r: Option<string>, page: nat, shift: nat, on: bool)
    requires shift < 32
  {
    forall d | d in s.discovery && Answers(d, r, page) :: HasBit(d.bitmap, shift) == on
  }

  lemma OwnPageMeaning(s: Support, r: Option<string>, page: nat, shift: nat, on: bool)
    requires shift < 32
    ensures var own := Filter(CapabilityOf(s, r), OnPage(page));
            (own != [] <==> AnsweredBy(s, r, page)) &&
            ((forall i | 0 <= i < |own| :: HasBit(own[i].bitmap, shift) == on) <==> AllBits(s, r, page, shift, on))
  {
    var own := Filter(CapabilityOf(s, r), OnPage(page));
    OwnPage(s, r, page);
    assert own != [] ==> own[0] in own;
    assert forall i | 0 <= i < |own| :: own[i] in own;
  }

  /** A responder's own view speaks of its own answers only: supported when they
      all have the bit, unsupported when none has, and without an answer on the
      page unsupported exactly when the page before was answered without ever
      advertising a continuation. */
  lemma CapabilityMeaning(s: Support, r: Option<string>, pid: nat)
    requires 1 <= pid <= 255
    ensures var page, shift, status := PageOf(pid), CapabilityShift(pid), PidStatus(CapabilityOf(s, r), pid);
            if AnsweredBy(s, r, page) then
              (status == Supported <==> AllBits(s, r, page, shift, true)) &&
              (status == Unsupported <==> AllBits(s, r, page, shift, false))
            else
              status != Supported &&
              (status == Unsupported <==>
                page != 0 && AnsweredBy(s, r, page - 32) && AllBits(s, r, page - 32, 0, false))
  {
    var page, shift := PageOf(pid), CapabilityShift(pid);
    OwnPageMeaning(s, r, page, shift, true);
    OwnPageMeaning(s, r, page, shift, false);
    if page != 0 {
      OwnPageMeaning(s, r, page - 32, 0, false);
    }
    if AnsweredBy(s, r, page) {
      var d :| d in s.discovery && Answers(d, r, page);
    }
  }

  /** A responder that supports a PID is never hidden by the merged view. */
  lemma CapabilityImpliesMerged(s: Support, r: Option<string>, pid: nat)
    requires Built(s) && 1 <= pid <= 255
    ensures PidStatus(CapabilityOf(s, r), pid) == Supported ==> Status(s, pid) == Supported
    ensures Status(s, pid) == Unsupported ==> PidStatus(CapabilityOf(s, r), pid) != Supported
  {
    MergedSupported(s, pid);
    var own := CapabilityOf(s, r);
    var here := Filter(own, OnPage(PageOf(pid)));
    FilterIn(s.discovery, OfResponder(r));
    FilterIn(own, OnPage(PageOf(pid)));
    if here != [] {
      assert here[0] in here;
    }
  }

  /** A PID is unknown exactly when it lies beyond the queried pages, which is
      exactly when nobody answered for its page. So without an answer on its page a
      PID is never reported unsupported. */
  lemma MergedUnknown(s: Support, pid: nat)
    requires Built(s)
    ensures Status(s, pid) == Unknown <==> pid == 0 || pid > 32 * |s.pages|
    ensures pid > 0 ==> (Status(s, pid) == Unknown <==> !PageAnswered(s, PageOf(pid)))
  {
    forall i | 0 <= i < |s.discovery| ensures s.discovery[i].page < 32 * |s.pages| {
      assert s.discovery[i] in s.discovery;
    }
    if 0 < pid <= 32 * |s.pages| {
      assert PageAnswered(s, 32 * ((pid - 1) / 32));
    }
  }
}
