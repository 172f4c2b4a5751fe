/** Planning, resuming and sending a multipart upload (transferParts). */
module Multipart {
  import opened Arith
  import opened Text

  /** ingestPartSize. */
  const INGEST_PART_SIZE: int := 0x200_0000
  const BATCH_SIZE: int := 100

  /** media.MultipartReply. */
  datatype Plan = Plan(ticket: string, minPartSize: int64, maxPartSize: int64, maxParts: int64)

  datatype Part = Part(number: int, size: int, sha256: string, offset: int)

  /** A landed part as the server lists it. */
  datatype StoredPart = StoredPart(number: int, size: int, sha256: string)

  /** A presigned part; a reply may lack its request. */
  datatype SignedPart = SignedPart(number: int, request: Option<string>)

  datatype Listing = NotFound | ListingFailed | Stored(parts: seq<StoredPart>)

  /** What the server and the bucket answer: signing a batch may fail, and so may an upload. */
  datatype Remote = Remote(
    listing: Listing, sign: seq<Part> -> Option<seq<SignedPart>>, accepts: (string, Part) -> bool)

  datatype Outcome =
    | Done | InvalidPlan | ExceedsLimits | DigestFailed | RemoteFailed | UnknownPart | Mismatch
    | UnexpectedSignature | DuplicateSignature | MissingSignatures | NotPresigned | UploadFailed

  // ---------------------------------------------------------------- the plan

  predicate ValidPlan(size: int, hasBody: bool, m: Plan) {
    size > 0 && hasBody && m.ticket != "" && 0 < m.minPartSize <= m.maxPartSize && m.maxParts > 0
  }

  function PartSize(size: int, m: Plan): (part: int)
    requires ValidPlan(size, true, m)
    ensures part > 0
  {
    var part := Min(Max(INGEST_PART_SIZE, m.minPartSize), m.maxPartSize);
    if (size - 1) / part + 1 > m.maxParts then (size - 1) / m.maxParts + 1 else part
  }

  /** The part size is at least the server's minimum and never makes too many parts; it exceeds the maximum
      exactly when no size could do. */
  lemma PartSizeBounds(size: int, m: Plan)
    requires ValidPlan(size, true, m)
    ensures var part := PartSize(size, m);
            && part >= m.minPartSize && (size - 1) / part < m.maxParts
            && (part > m.maxPartSize <==> size > m.maxPartSize * m.maxParts)
  {
    var preferred := Min(Max(INGEST_PART_SIZE, m.minPartSize), m.maxPartSize);
    if (size - 1) / preferred + 1 > m.maxParts {
      RaisedBounds(size, m, preferred, PartSize(size, m));
    } else {
      ProductIs(preferred, m.maxParts - 1);
      ProductIs(m.maxParts, preferred);
      ProductIs(m.maxPartSize, m.maxParts);
      hide Product, PartSize;
      DivBound(size - 1, preferred, m.maxParts - 1);
      if preferred < m.maxPartSize { ProductLess(m.maxParts, preferred, m.maxPartSize); }
    }
  }

  lemma RaisedBounds(size: int, m: Plan, preferred: int, part: int)
    requires ValidPlan(size, true, m) && preferred > 0 && (size - 1) / preferred + 1 > m.maxParts
    requires part == (size - 1) / m.maxParts + 1
    ensures part > preferred && (size - 1) / part < m.maxParts
    ensures part > m.maxPartSize <==> size > m.maxPartSize * m.maxParts
  {
    ProductIs(m.maxPartSize, m.maxParts);
    ProductIs(m.maxParts, m.maxPartSize - 1);
    ProductIs(m.maxParts, preferred - 1);
    ProductIs(preferred, m.maxParts - 1);
    ProductIs(m.maxParts, part - 1);
    ProductIs(part, m.maxParts - 1);
    ProductIs(m.maxParts, preferred);
    ProductIs(m.maxParts, part);
    hide Product;
    DivBound(size - 1, m.maxParts, m.maxPartSize - 1);
    DivBound(size - 1, preferred, m.maxParts - 1);
    DivBound(size - 1, m.maxParts, preferred - 1);
    DivBound(size - 1, part, m.maxParts - 1);
    DivBound(size - 1, m.maxParts, part - 1);
  }

  function Distance(a: int, b: int): nat { if a < b then b - a else a - b }

  /** Among the sizes that meet the server's bounds and the part count, the one chosen is nearest 32 MiB. */
  lemma PartSizeIsNearest(size: int, m: Plan, q: int)
    requires ValidPlan(size, true, m) && size <= m.maxPartSize * m.maxParts
    requires m.minPartSize <= q <= m.maxPartSize && (size - 1) / q < m.maxParts && q != PartSize(size, m)
    ensures m.minPartSize <= PartSize(size, m) <= m.maxPartSize && (size - 1) / PartSize(size, m) < m.maxParts
    ensures Distance(PartSize(size, m), 0x200_0000) < Distance(q, 0x200_0000)
  {
    PartSizeBounds(size, m);
    var preferred := Min(Max(INGEST_PART_SIZE, m.minPartSize), m.maxPartSize);
    var part := PartSize(size, m);
    if (size - 1) / preferred + 1 > m.maxParts {
      RaisedBounds(size, m, preferred, part);
      RaisedIsLeast(size, m, part, q);
    }
  }

  /** A raised part size is the least that keeps the part count. */
  lemma RaisedIsLeast(size: int, m: Plan, part: int, q: int)
    requires size > 0 && m.maxParts > 0 && q > 0
    requires part == (size - 1) / m.maxParts + 1 && (size - 1) / q < m.maxParts
    ensures part <= q
  {
    ProductIs(q, m.maxParts - 1);
    ProductIs(m.maxParts, q);
    ProductIs(m.maxParts, q - 1);
    hide Product;
    DivBound(size - 1, q, m.maxParts - 1);
    DivBound(size - 1, m.maxParts, q - 1);
  }

  /** The parts tile [0, end) in order, numbered from 1. */
  predicate Tiles(parts: seq<Part>, end: int) {
    && (forall i | 0 <= i < |parts| :: parts[i].number == i + 1 && parts[i].size > 0)
    && (forall i | 0 < i < |parts| :: parts[i].offset == parts[i - 1].offset + parts[i - 1].size)
    && if parts == [] then end == 0
       else parts[0].offset == 0 && end == parts[|parts| - 1].offset + parts[|parts| - 1].size
  }

  /** One part: within the bounds, its digest read from its own bytes. Only the last may be short. */
  predicate Planned(p: Part, size: int, part: int, digest: (int, int) -> Option<string>) {
    && p.size == Min(part, size - p.offset) && p.offset < size
    && digest(p.offset, p.size) == Some(p.sha256)
  }

  predicate HasDigest(off: int, size: int, part: int, digest: (int, int) -> Option<string>) {
    digest(off, Min(part, size - off)).Some?
  }

  /** The digest of every part can be read; parts begin at the multiples of their size. */
  ghost predicate Digests(end: int, size: int, part: int, digest: (int, int) -> Option<string>)
    requires part > 0
  {
    forall off | 0 <= off < end && off % part == 0 :: HasDigest(off, size, part, digest)
  }

  /** Seeking before the start of the body is an error. */
  ghost predicate Seeks(digest: (int, int) -> Option<string>) { forall off, n | off < 0 :: digest(off, n) == None }

  /** The planning part of transferParts. digest reads the body and may fail. The offset wraps: when the last
      part's full size would end beyond the largest int64, the loop goes on at a negative offset and fails. */
  method PlanParts(size: int64, hasBody: bool, m: Plan, digest: (int, int) -> Option<string>)
    returns (r: Outcome, parts: seq<Part>)
    requires Seeks(digest)
    ensures r in {Done, InvalidPlan, ExceedsLimits, DigestFailed}
    ensures r == InvalidPlan <==> size <= 0 || !hasBody || m.ticket == "" || m.minPartSize <= 0
                                  || m.maxPartSize < m.minPartSize || m.maxParts <= 0
    ensures r == ExceedsLimits <==> ValidPlan(size, hasBody, m) && size > m.maxPartSize * m.maxParts
    ensures r == Done <==> Plans(size, hasBody, m, digest)
    ensures r == Done ==> Tiles(parts, size) && 0 < |parts| <= m.maxParts
    ensures r == Done ==> forall p <- parts :: Planned(p, size, PartSize(size, m), digest)
    ensures r == Done ==> forall i | 0 <= i < |parts| ::
                && parts[i].size <= m.maxPartSize && (i + 1 < |parts| ==> parts[i].size >= m.minPartSize)
                && digest(parts[i].offset, parts[i].size) == Some(parts[i].sha256)
  {
    hide PartSize, Tiles, Planned, Digests, HasDigest;
    parts := [];
    if !ValidPlan(size, hasBody, m) { return InvalidPlan, parts; }
    var part := PartSize(size, m);
    PartSizeBounds(size, m);
    if part > m.maxPartSize { return ExceedsLimits, parts; }
    var off: int64, n := 0, 1;
    NothingTiles();
    DigestsStart(size, part, digest);
    while off < size
      invariant n == |parts| + 1 && off == Wrap64(|parts| * part) && |parts| * part < size + part
      invariant |parts| <= m.maxParts
      invariant Tiles(parts, Min(|parts| * part, size))
      invariant forall p <- parts :: Planned(p, size, part, digest)
      invariant Digests(Min(|parts| * part, size), size, part, digest)
      decreases size - |parts| * part
    {
      OffsetIs(size, part, |parts|);
      var sum := digest(off, Min(part, Wrap64(size - off)));
      if |parts| * part >= size {
        LastEndIs(size, part, |parts|);
        return DigestFailed, parts;
      }
      DigestsNext(|parts|, size, part, digest);
      FitsOneMore(size, part, |parts|, m.maxParts);
      if sum.None? { return DigestFailed, parts; }
      var p := Part(n, Min(part, size - off), sum.value, off);
      IsPlanned(p, size, part, digest);
      TilesExtend(parts, off, p);
      parts := parts + [p];
      off, n := Wrap64(off + part), n + 1;
    }
    r := Done;
    OffsetIs(size, part, |parts|);
    LastEndIs(size, part, |parts|);
    PlannedBounds(parts, size, part, digest);
  }

  /** transferParts plans the upload. */
  ghost predicate Plans(size: int, hasBody: bool, m: Plan, digest: (int, int) -> Option<string>) {
    && ValidPlan(size, hasBody, m) && size <= m.maxPartSize * m.maxParts
    && LastEnd(size, PartSize(size, m)) <= MAX_INT64
    && Digests(size, size, PartSize(size, m), digest)
  }

  /** Where the last part would end if it were full. */
  function LastEnd(size: int, part: int): int
    requires part > 0
  {
    ((size - 1) / part + 1) * part
  }

  lemma LastEndIs(size: int, part: int, n: nat)
    requires part > 0 && size > 0 && size <= n * part < size + part
    ensures LastEnd(size, part) == n * part
  {
    ProductIs(part, n - 1);
    ProductIs(n, part);
    ModIs(size - 1, part, n - 1, size - 1 - Product(part, n - 1));
  }

  /** The loop's offset is exact until it wraps below zero. */
  lemma OffsetIs(size: int64, part: int64, n: nat)
    requires part > 0 && size > 0 && n * part < size + part
    ensures n * part <= MAX_INT64 ==> Wrap64(n * part) == n * part && Wrap64(size - n * part) == size - n * part
    ensures n * part > MAX_INT64 ==> Wrap64(n * part) < 0
  {
    assert n * part >= 0;
    var end := n * part;
    WrapIs(end);
    WrapIs(size - end);
  }

  lemma DigestsStart(size: int, part: int, digest: (int, int) -> Option<string>)
    requires part > 0
    ensures Digests(0, size, part, digest)
  {}

  /** One more part's digest decides the next prefix, and a missing one the whole body. */
  lemma DigestsNext(n: nat, size: int, part: int, digest: (int, int) -> Option<string>)
    requires part > 0 && n * part < size && Digests(n * part, size, part, digest)
    ensures Digests(Min(n * part + part, size), size, part, digest) <==> HasDigest(n * part, size, part, digest)
    ensures !HasDigest(n * part, size, part, digest) ==> !Digests(size, size, part, digest)
    ensures HasDigest(n * part, size, part, digest) == digest(n * part, Min(part, size - n * part)).Some?
  {
    ProductIs(part, n);
    ModIs(n * part, part, n, 0);
    hide HasDigest;
    forall off | n * part <= off < n * part + part && off % part == 0 ensures off == n * part {
      ModIs(off, part, n, off - n * part);
    }
  }

  lemma IsPlanned(p: Part, size: int, part: int, digest: (int, int) -> Option<string>)
    requires p.size == Min(part, size - p.offset) && p.offset < size && digest(p.offset, p.size) == Some(p.sha256)
    ensures Planned(p, size, part, digest)
  {}

  lemma NothingTiles()
    ensures Tiles([], 0)
  {}

  lemma FitsOneMore(size: int, part: int, n: nat, maxParts: int)
    requires part > 0 && n * part < size && (size - 1) / part < maxParts
    ensures n + 1 <= maxParts && (n + 1) * part == n * part + part
  {
    DivBound(size - 1, part, n - 1);
    ProductIs(part, n - 1);
    ProductIs(n, part);
  }

  lemma TilesExtend(parts: seq<Part>, end: int, p: Part)
    requires Tiles(parts, end) && p.offset == end && p.number == |parts| + 1 && p.size > 0
    ensures Tiles(parts + [p], end + p.size)
  {}

  /** What a finished plan promises of each part. */
  lemma PlannedBounds(parts: seq<Part>, size: int, part: int, digest: (int, int) -> Option<string>)
    requires Tiles(parts, size) && forall p <- parts :: Planned(p, size, part, digest)
    ensures forall i | 0 <= i < |parts| ::
              && parts[i].size <= part && (i + 1 < |parts| ==> parts[i].size == part)
              && parts[i].offset < size && digest(parts[i].offset, parts[i].size) == Some(parts[i].sha256)
  {
    forall i | 0 <= i < |parts| ensures Planned(parts[i], size, part, digest) {}
    forall i | 0 <= i && i + 1 < |parts| ensures parts[i].size == part {
      assert parts[i + 1].offset == parts[i + 1 - 1].offset + parts[i + 1 - 1].size;
    }
  }

  // ---------------------------------------------------------------- what is missing

  /** The parts not landed, in order. */
  function Missing(parts: seq<Part>, landed: set<int>): seq<Part> {
    if parts == [] then [] else
      var last := parts[|parts| - 1];
      Missing(parts[..|parts| - 1], landed) + if last.number in landed then [] else [last]
  }

  function Total(parts: seq<Part>): int {
    if parts == [] then 0 else Total(parts[..|parts| - 1]) + parts[|parts| - 1].size
  }

  /** The landed parts' bytes. */
  function Landed(parts: seq<Part>, landed: set<int>): int {
    if parts == [] then 0 else
      var last := parts[|parts| - 1];
      Landed(parts[..|parts| - 1], landed) + if last.number in landed then last.size else 0
  }

  predicate Numbered(parts: seq<Part>) { forall i | 0 <= i < |parts| :: parts[i].number == i + 1 }

  predicate Increasing(parts: seq<Part>) {
    forall i, j | 0 <= i < j < |parts| :: parts[i].number < parts[j].number
  }

  /** Missing is exactly the parts not landed, each once, in ascending order. */
  lemma {:induction false} MissingIsExact(parts: seq<Part>, landed: set<int>)
    requires Numbered(parts)
    ensures Increasing(Missing(parts, landed))
    ensures forall p :: p in Missing(parts, landed) <==> p in parts && p.number !in landed
    decreases parts
  {
    if parts != [] {
      var init, last := parts[..|parts| - 1], parts[|parts| - 1];
      MissingIsExact(init, landed);
      assert parts == init + [last];
      AppendIncreases(Missing(init, landed), init, last);
    }
  }

  lemma AppendIncreases(missing: seq<Part>, init: seq<Part>, last: Part)
    requires Numbered(init) && last.number == |init| + 1
    requires Increasing(missing) && forall p <- missing :: p in init
    ensures Increasing(missing + [last])
  {
    forall i | 0 <= i < |missing| ensures missing[i].number < last.number { assert missing[i] in init; }
  }

  lemma {:induction false} MissingTotal(parts: seq<Part>, landed: set<int>)
    ensures Landed(parts, landed) + Total(Missing(parts, landed)) == Total(parts)
    decreases parts
  {
    if parts != [] {
      var init, last := parts[..|parts| - 1], parts[|parts| - 1];
      MissingTotal(init, landed);
      var rest := if last.number in landed then [] else [last];
      TotalAppend(Missing(init, landed), rest);
      assert rest != [] ==> rest[..0] == [];
    }
  }

  lemma {:induction false} TotalAppend(a: seq<Part>, b: seq<Part>)
    ensures Total(a + b) == Total(a) + Total(b)
    decreases b
  {
    if b == [] {
      assert a + b == a;
    } else {
      assert (a + b)[..|a + b| - 1] == a + b[..|b| - 1];
      TotalAppend(a, b[..|b| - 1]);
    }
  }

  lemma {:induction false} TilesTotal(parts: seq<Part>, end: int)
    requires Tiles(parts, end)
    ensures Total(parts) == end
    decreases parts
  {
    if parts != [] {
      var init, last := parts[..|parts| - 1], parts[|parts| - 1];
      TilesTotal(init, last.offset);
    }
  }

  lemma {:induction false} LandOne(parts: seq<Part>, landed: set<int>, n: int)
    requires Numbered(parts) && n !in landed
    ensures Landed(parts, landed + {n}) == Landed(parts, landed) + if 1 <= n <= |parts| then parts[n - 1].size else 0
    decreases parts
  {
    if parts != [] {
      LandOne(parts[..|parts| - 1], landed, n);
    }
  }

  // ---------------------------------------------------------------- resuming

  /** The listing agrees with the plan: known numbers, each once, sizes and known digests equal. */
  predicate Agrees(parts: seq<Part>, stored: seq<StoredPart>) {
    && (forall p <- stored :: 1 <= p.number <= |parts|)
    && (forall i, j | 0 <= i < j < |stored| :: stored[i].number != stored[j].number)
    && (forall p <- stored :: 1 <= p.number <= |parts| ==>
          p.size == parts[p.number - 1].size && (p.sha256 == "" || p.sha256 == parts[p.number - 1].sha256))
  }

  function Numbers(stored: seq<StoredPart>): set<int> { set p <- stored :: p.number }

  method Resume(parts: seq<Part>, stored: seq<StoredPart>) returns (r: Outcome, landed: set<int>, loaded: int)
    requires Numbered(parts)
    ensures r in {Done, UnknownPart, Mismatch}
    ensures r == Done <==> Agrees(parts, stored)
    ensures r == Done ==> landed == Numbers(stored) && loaded == Landed(parts, landed)
  {
    landed, loaded := {}, 0;
    NothingLanded(parts);
    for i := 0 to |stored|
      invariant landed == Numbers(stored[..i]) && loaded == Landed(parts, landed)
      invariant Agrees(parts, stored[..i])
    {
      var p := stored[i];
      assert p in stored;
      if p.number < 1 || p.number > |parts| || p.number in landed {
        assert p.number in landed ==> exists j | 0 <= j < i :: stored[..i][j].number == stored[i].number;
        return UnknownPart, landed, loaded;
      }
      var want := parts[p.number - 1];
      if p.size != want.size || (p.sha256 != "" && p.sha256 != want.sha256) {
        return Mismatch, landed, loaded;
      }
      LandOne(parts, landed, p.number);
      assert stored[..i + 1] == stored[..i] + [p];
      landed, loaded := landed + {p.number}, loaded + want.size;
    }
    assert stored[..|stored|] == stored;
    r := Done;
  }

  lemma {:induction false} NothingLanded(parts: seq<Part>)
    ensures Landed(parts, {}) == 0
    decreases parts
  {
    if parts != [] { NothingLanded(parts[..|parts| - 1]); }
  }

  // ---------------------------------------------------------------- signing and sending

  function PartNumbers(batch: seq<Part>): set<int> { set p <- batch :: p.number }

  /** A run of consecutive missing parts: whatever number it spans is its own or landed. */
  predicate IsRun(batch: seq<Part>, landed: set<int>) {
    && batch != [] && Increasing(batch)
    && (forall p <- batch :: p.number !in landed)
    && (forall n | batch[0].number <= n <= batch[|batch| - 1].number :: n in landed || n in PartNumbers(batch))
  }

  lemma {:induction false} IncreasingIsDistinct(batch: seq<Part>)
    requires Increasing(batch)
    ensures |PartNumbers(batch)| == |batch|
    decreases batch
  {
    if batch != [] {
      var init, last := batch[..|batch| - 1], batch[|batch| - 1];
      IncreasingIsDistinct(init);
      assert batch == init + [last];
      assert PartNumbers(batch) == PartNumbers(init) + {last.number};
      assert last.number !in PartNumbers(init);
    }
  }

  lemma SameSizeSubset(a: set<int>, b: set<int>)
    requires a <= b && |a| == |b|
    ensures a == b
  {
    assert b == a + (b - a);
    assert |b| == |a| + |b - a|;
  }

  /** A reply that signs each of the batch's numbers, once, and nothing else. */
  ghost predicate SignsExactly(batch: seq<Part>, signed: seq<SignedPart>) {
    && (forall s <- signed :: s.request.Some?)
    && (forall i, j | 0 <= i < j < |signed| :: signed[i].number != signed[j].number)
    && SignedNumbers(signed) == PartNumbers(batch)
  }

  function SignedNumbers(signed: seq<SignedPart>): set<int> { set s <- signed :: s.number }

  /** The range, not-landed, distinctness and count checks on a signed batch. They force the signed
      numbers to be exactly the batch's, and refuse no such reply. */
  method CheckSignatures(batch: seq<Part>, landed: set<int>, signed: seq<SignedPart>)
    returns (r: Outcome, requests: map<int, string>)
    requires IsRun(batch, landed)
    ensures r in {Done, UnexpectedSignature, DuplicateSignature, MissingSignatures}
    ensures r == Done <==> SignsExactly(batch, signed)
    ensures r == Done ==> requests.Keys == PartNumbers(batch)
    ensures r == Done ==> forall p <- batch :: SignedPart(p.number, Some(requests[p.number])) in signed
  {
    hide SignsExactly, SignedTo, IsRun, Increasing;
    requests := map[];
    NothingSigned(batch);
    RunIsNotEmpty(batch, landed);
    for i := 0 to |signed|
      invariant SignedTo(batch, signed[..i], requests)
    {
      var p := signed[i];
      SignOne(batch, landed, signed, i, requests);
      if p.number < batch[0].number || p.number > batch[|batch| - 1].number || p.number in landed || p.request.None? {
        return UnexpectedSignature, requests;
      }
      if p.number in requests { return DuplicateSignature, requests; }
      requests := requests[p.number := p.request.value];
    }
    assert signed[..|signed|] == signed;
    SignAll(batch, landed, signed, requests);
    if |requests| != |batch| { return MissingSignatures, requests; }
    r := Done;
  }

  /** The replies so far: numbers of the batch, each once, each with its request. */
  ghost predicate SignedTo(batch: seq<Part>, signed: seq<SignedPart>, requests: map<int, string>) {
    && requests.Keys == SignedNumbers(signed) <= PartNumbers(batch)
    && (forall s <- signed :: s.request.Some?)
    && (forall i, j | 0 <= i < j < |signed| :: signed[i].number != signed[j].number)
    && (forall n <- requests :: SignedPart(n, Some(requests[n])) in signed)
  }

  lemma NothingSigned(batch: seq<Part>)
    ensures SignedTo(batch, [], map[])
  {}

  lemma RunIsNotEmpty(batch: seq<Part>, landed: set<int>)
    requires IsRun(batch, landed)
    ensures batch != []
  {}

  lemma SignOne(batch: seq<Part>, landed: set<int>, signed: seq<SignedPart>, i: nat, requests: map<int, string>)
    requires IsRun(batch, landed) && i < |signed| && SignedTo(batch, signed[..i], requests)
    ensures var p := signed[i];
            if p.number < batch[0].number || p.number > batch[|batch| - 1].number || p.number in landed
               || p.request.None? || p.number in requests
            then !SignsExactly(batch, signed)
            else SignedTo(batch, signed[..i + 1], requests[p.number := p.request.value])
  {
    var p, so := signed[i], signed[..i];
    assert p in signed && signed[..i + 1] == so + [p];
    if p.number in requests {
      var k :| 0 <= k < i && so[k].number == p.number;
      assert signed[k].number == signed[i].number;
    } else if p.number in PartNumbers(batch) {
      assert forall j | 0 <= j < i :: so[j] in so;
    } else {
      assert p.number in SignedNumbers(signed);
    }
  }

  lemma SignAll(batch: seq<Part>, landed: set<int>, signed: seq<SignedPart>, requests: map<int, string>)
    requires IsRun(batch, landed) && SignedTo(batch, signed, requests)
    ensures |requests| == |batch| <==> SignsExactly(batch, signed)
    ensures |requests| == |batch| ==>
              requests.Keys == PartNumbers(batch)
              && forall p <- batch :: SignedPart(p.number, Some(requests[p.number])) in signed
  {
    IncreasingIsDistinct(batch);
    assert |requests| == |requests.Keys|;
    if |requests| == |batch| { SameSizeSubset(requests.Keys, PartNumbers(batch)); }
  }

  /** Slices of the missing parts are runs. */
  lemma SliceIsRun(parts: seq<Part>, landed: set<int>, i: nat, j: nat)
    requires Numbered(parts) && i < j <= |Missing(parts, landed)|
    ensures IsRun(Missing(parts, landed)[i..j], landed)
  {
    hide Missing;
    MissingIsExact(parts, landed);
    var all := Missing(parts, landed);
    SliceIncreases(all, i, j);
    hide Increasing;
    forall p | p in all[i..j] ensures p.number !in landed { assert p in all; }
    forall n | all[i].number <= n <= all[j - 1].number && n !in landed ensures n in PartNumbers(all[i..j]) {
      assert all[i] in all && all[j - 1] in all;
      NumberInSlice(parts, all, i, j, n);
    }
  }

  lemma SliceIncreases(all: seq<Part>, i: nat, j: nat)
    requires Increasing(all) && i <= j <= |all|
    ensures Increasing(all[i..j])
  {}

  lemma NumberInSlice(parts: seq<Part>, all: seq<Part>, i: nat, j: nat, n: int)
    requires Numbered(parts) && Increasing(all) && i < j <= |all|
    requires all[i] in parts && all[j - 1] in parts && all[i].number <= n <= all[j - 1].number
    requires 1 <= n <= |parts| ==> parts[n - 1] in all
    ensures n in PartNumbers(all[i..j])
  {
    var k :| 0 <= k < |all| && all[k] == parts[n - 1];
    assert i <= k < j && all[k] == all[i..j][k - i];
  }

  /** What progress reports: the landed bytes, then the total after each part. */
  function Progress(landed: int, sent: seq<Part>): seq<int> {
    if sent == [] then [landed] else Progress(landed, sent[..|sent| - 1]) + [landed + Total(sent)]
  }

  lemma ProgressOne(landed: int, sent: seq<Part>, p: Part)
    ensures Total(sent + [p]) == Total(sent) + p.size
    ensures Progress(landed, sent + [p]) == Progress(landed, sent) + [landed + Total(sent) + p.size]
  {
    assert (sent + [p])[..|sent|] == sent;
  }

  lemma {:induction false} ProgressRises(landed: int, sent: seq<Part>)
    requires forall p <- sent :: p.size > 0
    ensures var ps := Progress(landed, sent);
            && |ps| == |sent| + 1 && ps[0] == landed && ps[|sent|] == landed + Total(sent)
            && forall i, j | 0 <= i <= j <= |sent| :: ps[i] <= ps[j]
    decreases sent
  {
    if sent != [] {
      ProgressRises(landed, sent[..|sent| - 1]);
      assert sent[|sent| - 1] in sent;
    }
  }

  /** Sends one signed batch in order. */
  method SendBatch(batch: seq<Part>, requests: map<int, string>, remote: Remote, landed: int,
                   before: seq<Part>, reported: seq<int>)
    returns (r: Outcome, sent: seq<Part>, progress: seq<int>)
    requires PartNumbers(batch) <= requests.Keys && reported == Progress(landed, before)
    ensures r in {Done, UploadFailed}
    ensures r == Done <==> forall p <- batch :: remote.accepts(requests[p.number], p)
    ensures before <= sent <= before + batch && (r == Done ==> sent == before + batch)
    ensures progress == Progress(landed, sent)
  {
    hide Progress, Total;
    sent, progress := before, reported;
    var loaded := landed + Total(before);
    for i := 0 to |batch|
      invariant sent == before + batch[..i]
      invariant forall p <- batch[..i] :: remote.accepts(requests[p.number], p)
      invariant loaded == landed + Total(sent) && progress == Progress(landed, sent)
    {
      var p := batch[i];
      assert p in batch && p.number in PartNumbers(batch);
      if p.number !in requests { r := NotPresigned; return; }
      if !remote.accepts(requests[p.number], p) { r := UploadFailed; return; }
      ProgressOne(landed, sent, p);
      sent, loaded := sent + [p], loaded + p.size;
      progress := progress + [loaded];
    }
    assert batch[..|batch|] == batch;
    r := Done;
  }

  /** A batch's reply signs it exactly, and every upload is accepted. */
  ghost predicate Sends(batch: seq<Part>, remote: Remote) {
    var signed := remote.sign(batch);
    signed.Some? && SignsExactly(batch, signed.value) && AcceptsSigned(batch, signed.value, remote)
  }

  ghost predicate AcceptsSigned(batch: seq<Part>, signed: seq<SignedPart>, remote: Remote) {
    forall p <- batch, s <- signed ::
      s.number == p.number && s.request.Some? ==> remote.accepts(s.request.value, p)
  }

  /** The requests checked are the signed ones. */
  lemma RequestsAreSigned(batch: seq<Part>, signed: seq<SignedPart>, requests: map<int, string>, remote: Remote)
    requires SignsExactly(batch, signed)
    requires forall p <- batch :: p.number in requests && SignedPart(p.number, Some(requests[p.number])) in signed
    ensures (forall p <- batch :: remote.accepts(requests[p.number], p)) <==> AcceptsSigned(batch, signed, remote)
  {
    forall p, s | p in batch && s in signed && s.number == p.number ensures s.request == Some(requests[p.number]) {
      var i :| 0 <= i < |signed| && signed[i] == s;
      var j :| 0 <= j < |signed| && signed[j] == SignedPart(p.number, Some(requests[p.number]));
      assert i == j;
    }
    if AcceptsSigned(batch, signed, remote) {
      forall p | p in batch ensures remote.accepts(requests[p.number], p) {
        assert SignedPart(p.number, Some(requests[p.number])) in signed;
      }
    }
  }

  ghost predicate SendsAt(pending: seq<Part>, i: int, remote: Remote)
    requires 0 <= i <= |pending|
  {
    Sends(pending[i..Min(i + BATCH_SIZE, |pending|)], remote)
  }

  /** Every batch of the pending parts that begins before n is sent. */
  ghost predicate SendsTo(pending: seq<Part>, n: nat, remote: Remote) {
    forall i | 0 <= i < Min(n, |pending|) && i % BATCH_SIZE == 0 :: SendsAt(pending, i, remote)
  }

  ghost predicate AllSend(pending: seq<Part>, remote: Remote) { SendsTo(pending, |pending|, remote) }

  lemma NothingSends(pending: seq<Part>, remote: Remote)
    ensures SendsTo(pending, 0, remote)
  {}

  /** One more batch decides the next prefix, and an unsent one the whole. */
  lemma SendsNext(pending: seq<Part>, start: nat, remote: Remote)
    requires start % BATCH_SIZE == 0 && start < |pending| && SendsTo(pending, start, remote)
    ensures var batch := pending[start..Min(start + BATCH_SIZE, |pending|)];
            && (Sends(batch, remote) ==> SendsTo(pending, start + BATCH_SIZE, remote))
            && (!Sends(batch, remote) ==> !AllSend(pending, remote))
  {
    assert SendsAt(pending, start, remote) == Sends(pending[start..Min(start + BATCH_SIZE, |pending|)], remote);
    hide SendsAt;
    assert forall i | start <= i < start + BATCH_SIZE && i % BATCH_SIZE == 0 :: i == start;
  }

  lemma AllSent(pending: seq<Part>, n: nat, remote: Remote)
    requires SendsTo(pending, n, remote) && n >= |pending|
    ensures AllSend(pending, remote)
  {}

  /** Signs and sends the missing parts in batches. */
  method SendMissing(parts: seq<Part>, have: set<int>, loaded: int, remote: Remote)
    returns (r: Outcome, sent: seq<Part>, progress: seq<int>)
    requires Numbered(parts)
    ensures r != NotPresigned && r != InvalidPlan
    ensures r == Done <==> AllSend(Missing(parts, have), remote)
    ensures sent <= Missing(parts, have) && (r == Done ==> sent == Missing(parts, have))
    ensures progress == Progress(loaded, sent)
  {
    hide Missing, Progress, IsRun, Sends, SendsTo, AllSend, SignsExactly, AcceptsSigned;
    var pending := Missing(parts, have);
    sent, progress := [], [loaded];
    NothingSent(loaded);
    NothingSends(pending, remote);
    var start := 0;
    while start < |pending|
      invariant 0 <= start && start % BATCH_SIZE == 0 && sent == pending[..Min(start, |pending|)]
      invariant SendsTo(pending, start, remote)
      invariant progress == Progress(loaded, sent)
      decreases |pending| - start
    {
      var end := Min(start + BATCH_SIZE, |pending|);
      var batch := pending[start..end];
      SliceIsRun(parts, have, start, end);
      var signed := remote.sign(batch);
      SendsNext(pending, start, remote);
      SendsIs(batch, remote);
      if signed.None? { r := RemoteFailed; return; }
      var requests;
      r, requests := CheckSignatures(batch, have, signed.value);
      if r != Done { return; }
      RequestsAreSigned(batch, signed.value, requests, remote);
      assert pending[..start] + batch == pending[..end];
      r, sent, progress := SendBatch(batch, requests, remote, loaded, sent, progress);
      if r != Done { return; }
      start := start + BATCH_SIZE;
    }
    assert pending[..|pending|] == pending;
    AllSent(pending, start, remote);
    r := Done;
  }

  lemma SendsIs(batch: seq<Part>, remote: Remote)
    ensures Sends(batch, remote) <==>
              var signed := remote.sign(batch);
              signed.Some? && SignsExactly(batch, signed.value) && AcceptsSigned(batch, signed.value, remote)
  {}

  /** A resumed listing is missing, or agrees with the plan. */
  predicate Resumes(parts: seq<Part>, listing: Listing) {
    listing.NotFound? || (listing.Stored? && Agrees(parts, listing.parts))
  }

  /** The whole transfer: what was sent, in order, and what progress was reported. */
  method TransferParts(size: int64, hasBody: bool, m: Plan, digest: (int, int) -> Option<string>, resume: bool,
                       remote: Remote)
    returns (r: Outcome, sent: seq<Part>, progress: seq<int>, ghost parts: seq<Part>, ghost landed: set<int>)
    requires Seeks(digest)
    ensures r != NotPresigned
    ensures r == Done <==>
              && Plans(size, hasBody, m, digest) && (resume ==> Resumes(parts, remote.listing))
              && ((resume && remote.listing.NotFound?) || AllSend(Missing(parts, landed), remote))
    ensures Plans(size, hasBody, m, digest) ==>
              Tiles(parts, size) && forall p <- parts :: Planned(p, size, PartSize(size, m), digest)
    ensures sent <= Missing(parts, landed)
    ensures progress != [] ==> Tiles(parts, size) && progress == Progress(Landed(parts, landed), sent)
    ensures progress == [] ==> sent == []
    ensures landed == if resume && remote.listing.Stored? then Numbers(remote.listing.parts) else {}
    ensures r == Done ==> if resume && remote.listing.NotFound? then progress == []
                          else progress != [] && sent == Missing(parts, landed)
  {
    hide PartSize, Tiles, Missing, Landed, Agrees, Plans, Planned, AllSend;
    sent, progress := [], [];
    landed := if resume && remote.listing.Stored? then Numbers(remote.listing.parts) else {};
    r, parts := InvalidPlan, [];
    var planned;
    r, planned := PlanParts(size, hasBody, m, digest);
    parts := planned;
    if r != Done { return; }
    TilesNumbered(parts, size);
    NothingLanded(parts);
    var have, loaded := {}, 0;
    if resume {
      match remote.listing
      case NotFound => return;
      case ListingFailed => r := RemoteFailed; return;
      case Stored(stored) =>
        r, have, loaded := Resume(planned, stored);
        if r != Done { return; }
    }
    r, sent, progress := SendMissing(planned, have, loaded, remote);
  }

  lemma TilesNumbered(parts: seq<Part>, end: int)
    requires Tiles(parts, end)
    ensures Numbered(parts)
  {}

  lemma NothingSent(landed: int)
    ensures Progress(landed, []) == [landed]
  {}

  /** A transfer that reports Done sent each missing part exactly once in ascending order and no landed
      part; its progress starts at the landed bytes, never falls and ends at the size. */
  lemma DoneIsComplete(parts: seq<Part>, size: int, landed: set<int>, sent: seq<Part>, progress: seq<int>)
    requires Tiles(parts, size) && sent == Missing(parts, landed)
    requires progress == Progress(Landed(parts, landed), sent)
    ensures Increasing(sent) && forall p :: p in sent <==> p in parts && p.number !in landed
    ensures progress[0] == Landed(parts, landed) && progress[|progress| - 1] == size
    ensures NonDecreasing(progress)
  {
    TilesNumbered(parts, size);
    assert forall p <- parts :: p.size > 0;
    hide Tiles, Missing, Landed, Total, Progress;
    MissingIsExact(parts, landed);
    MissingTotal(parts, landed);
    TilesTotal(parts, size);
    forall p | p in sent ensures p.size > 0 { assert p in parts; }
    ProgressRises(Landed(parts, landed), sent);
  }

  predicate NonDecreasing(xs: seq<int>) { forall i, j | 0 <= i < j < |xs| :: xs[i] <= xs[j] }
}
