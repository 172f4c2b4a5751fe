/** Non-destructive image edits and the automatic crop (media/edit.go). */
module Edits {
  import opened Arith
  import opened Text
  import opened Aspects

  // ---------------------------------------------------------------- edits as values

  datatype CropValue = CropValue(x: int64, y: int64, w: int64, h: int64)

  datatype EditValue = EditValue(crop: Option<CropValue>, rotate: int64)

  datatype Refusal = BadRotation | EmptyCrop | OutsideSource | TooSmall

  /** The bounds of media.Image that concern edits. */
  datatype Image = Image(aspect: Aspect, minWidth: int64)

  predicate IsQuarter(rotate: int64) { rotate == 90 || rotate == 270 }

  predicate IsTurn(rotate: int64) { rotate == 0 || rotate == 180 || IsQuarter(rotate) }

  predicate Identity(e: Option<EditValue>) { e.None? || (e.value.crop.None? && e.value.rotate == 0) }

  /** Edit.Check: None accepts. The sums wrap. */
  function Refused(e: Option<EditValue>, w: int64, h: int64): Option<Refusal> {
    if e.None? then None
    else if !IsTurn(e.value.rotate) then Some(BadRotation)
    else
      match e.value.crop
      case None => None
      case Some(c) =>
        if c.x < 0 || c.y < 0 || c.w <= 0 || c.h <= 0 then Some(EmptyCrop)
        else if w > 0 && h > 0 && (Wrap64(c.x + c.w) > w || Wrap64(c.y + c.h) > h) then Some(OutsideSource)
        else None
  }

  /** Edit.Size. */
  function Size(e: Option<EditValue>, w: int64, h: int64): (int64, int64) {
    if e.None? then (w, h) else
      var (w, h) := if e.value.crop.Some? then (e.value.crop.value.w, e.value.crop.value.h) else (w, h);
      if IsQuarter(e.value.rotate) then (h, w) else (w, h)
  }

  function Turned(a: Aspect, rotate: int64): Aspect { if IsQuarter(rotate) then Rotated(a) else a }

  /** The largest centred crop of a w by h source at the (turned) aspect. */
  function AutoCrop(a: Aspect, w: int64, h: int64): CropValue
    requires Ratio(a) && w > 0 && h > 0
  {
    var cw := if Height(a, w) > h then Min(w, Width(a, h)) else w;
    var ch := Min(h, Height(a, cw));
    CropValue((w - cw) / 2, (h - ch) / 2, cw, ch)
  }

  /** The edit Resolve checks. */
  function Fitted(a: Aspect, e: Option<EditValue>, w: int64, h: int64): Option<EditValue>
    requires Valid(a)
  {
    var rotate := if e.Some? then e.value.rotate else 0;
    var r := Turned(a, rotate);
    if Native(r) then (if Identity(e) then None else e)
    else if e.Some? && e.value.crop.Some? then
      var c := e.value.crop.value;
      Some(e.value.(crop := Some(c.(h := Height(r, c.w)))))
    else if w > 0 && h > 0 then Some(EditValue(Some(AutoCrop(r, w, h)), rotate))
    else if Identity(e) then None
    else e
  }

  function Resolved(im: Image, e: Option<EditValue>, w: int64, h: int64): (Option<EditValue>, Option<Refusal>)
    requires Valid(im.aspect)
  {
    var f := Fitted(im.aspect, e, w, h);
    if Refused(f, w, h).Some? then (None, Refused(f, w, h))
    else if w > 0 && Size(f, w, h).0 < im.minWidth then (None, Some(TooSmall))
    else (if Identity(f) then None else f, None)
  }

  // ---------------------------------------------------------------- edits as the source's objects

  class Crop {
    var x: int64
    var y: int64
    var w: int64
    var h: int64

    constructor (x: int64, y: int64, w: int64, h: int64)
      ensures Value() == CropValue(x, y, w, h)
    {
      this.x, this.y, this.w, this.h := x, y, w, h;
    }

    function Value(): CropValue
      reads this
    {
      CropValue(x, y, w, h)
    }
  }

  class Edit {
    var crop: Crop?
    var rotate: int64

    constructor (crop: Crop?, rotate: int64)
      ensures this.crop == crop && this.rotate == rotate
    {
      this.crop, this.rotate := crop, rotate;
    }

    function Value(): EditValue
      reads this, crop
    {
      EditValue(if crop == null then None else Some(crop.Value()), rotate)
    }
  }

  function ValueOf(e: Edit?): Option<EditValue>
    reads e, if e == null then null else e.crop
  {
    if e == null then None else Some(e.Value())
  }

  /** Nothing of it existed before. */
  twostate predicate IsCopy(new e: Edit?)
    reads e
  {
    e == null || (fresh(e) && (e.crop != null ==> fresh(e.crop)))
  }

  /** null for an identity edit, else a deep copy. */
  method Normalize(e: Edit?) returns (out: Edit?)
    ensures IsCopy(out)
    ensures ValueOf(out) == if Identity(ValueOf(e)) then None else ValueOf(e)
  {
    if e == null || (e.crop == null && e.rotate == 0) { return null; }
    out := new Edit(e.crop, e.rotate);
    if e.crop != null {
      var c := new Crop(e.crop.x, e.crop.y, e.crop.w, e.crop.h);
      out.crop := c;
    }
  }

  /** Resolve's automatic crop. */
  method LargestCrop(r: Aspect, w: int64, h: int64) returns (c: Crop)
    requires Ratio(r) && w > 0 && h > 0
    ensures fresh(c) && c.Value() == AutoCrop(r, w, h)
  {
    hide Scale;
    var cw := w;
    if Height(r, cw) > h { cw := Min(w, Width(r, h)); }
    var ch := Min(h, Height(r, cw));
    c := new Crop((w - cw) / 2, (h - ch) / 2, cw, ch);
  }

  /** Computes Resolved on copies: it has no modifies clause, so the caller's edit is never mutated, and
      shares nothing with the result. */
  method Resolve(im: Image, given: Edit?, w: int64, h: int64) returns (out: Edit?, refusal: Option<Refusal>)
    requires Valid(im.aspect)
    ensures IsCopy(out)
    ensures (ValueOf(out), refusal) == Resolved(im, ValueOf(given), w, h)
  {
    hide Scale, Wrap64, Gcd, AutoCrop;
    var e := Normalize(given);
    var rotate := 0;
    if e != null { rotate := e.rotate; }
    var r := im.aspect;
    if IsQuarter(rotate) { r := Rotated(r); }
    if Native(r) {
    } else if e != null && e.crop != null {
      e.crop.h := Height(r, e.crop.w);
    } else if w > 0 && h > 0 {
      var c := LargestCrop(r, w, h);
      e := new Edit(c, rotate);
    }
    assert ValueOf(e) == Fitted(im.aspect, ValueOf(given), w, h);
    refusal := Refused(ValueOf(e), w, h);
    if refusal.Some? { return null, refusal; }
    if w > 0 && Size(ValueOf(e), w, h).0 < im.minWidth { return null, Some(TooSmall); }
    out := Normalize(e);
  }

  // ---------------------------------------------------------------- the automatic crop

  /** The automatic crop is nonempty, inside the source and centred. It takes the full width when its
      height fits, else exactly the width the height scales to: the cap at w never bites. */
  lemma AutoCropFits(a: Aspect, w: int64, h: int64)
    requires Ratio(a) && w > 0 && h > 0
    ensures var c := AutoCrop(a, w, h);
            && 0 <= c.x && 0 <= c.y && 1 <= c.w && 1 <= c.h
            && c.x + c.w <= w && c.y + c.h <= h
            && 0 <= w - c.w - 2 * c.x <= 1 && 0 <= h - c.h - 2 * c.y <= 1
    ensures var c := AutoCrop(a, w, h);
            if Scale(w, a.h, a.w) <= h then c.w == w && c.h == Scale(w, a.h, a.w)
            else c.w == Scale(h, a.w, a.h) && c.h == Min(h, Scale(c.w, a.h, a.w))
  {
    hide Scale;
    if Height(a, w) > h { NarrowedFits(a, w, h); }
    var cw := AutoCrop(a, w, h).w;
    ScaleIsNearest(cw, a.h, a.w);
    ScaleIsNearest(w, a.h, a.w);
  }

  predicate Uncropped(e: Option<EditValue>) { e.None? || e.value.crop.None? }

  function RotationOf(e: Option<EditValue>): int64 { if e.Some? then e.value.rotate else 0 }

  /** Without a crop, a known size, a valid aspect and any quarter turn, Resolve always takes the automatic
      crop; only the minimum width can refuse it. */
  lemma AutomaticAlwaysPassesCheck(im: Image, e: Option<EditValue>, w: int64, h: int64)
    requires Valid(im.aspect) && !Native(im.aspect) && w > 0 && h > 0
    requires Uncropped(e) && IsTurn(RotationOf(e))
    ensures var c := AutoCrop(Turned(im.aspect, RotationOf(e)), w, h);
            var whole := Some(EditValue(Some(c), RotationOf(e)));
            && Refused(whole, w, h) == None
            && Resolved(im, e, w, h) ==
                 if Size(whole, w, h).0 < im.minWidth then (None, Some(TooSmall)) else (whole, None)
  {
    hide AutoCrop, Refused, Gcd;
    var c := AutoCrop(Turned(im.aspect, RotationOf(e)), w, h);
    AutoCropFits(Turned(im.aspect, RotationOf(e)), w, h);
    CheckAccepts(Some(EditValue(Some(c), RotationOf(e))), w, h);
  }

  /** Resolving the automatic crop again changes nothing exactly when its height is what its width scales to;
      otherwise the second call refuses it as outside the source. */
  lemma ResolvingAgain(im: Image, e: Option<EditValue>, w: int64, h: int64)
    requires Valid(im.aspect) && !Native(im.aspect) && w > 0 && h > 0
    requires Uncropped(e) && IsTurn(RotationOf(e)) && Resolved(im, e, w, h).1 == None
    ensures var r := Turned(im.aspect, RotationOf(e));
            var first := Resolved(im, e, w, h);
            var stable := Height(r, w) <= h || Height(r, Width(r, h)) <= h;
            && (stable ==> Resolved(im, first.0, w, h) == first)
            && (!stable ==> Resolved(im, first.0, w, h) == (None, Some(OutsideSource)))
            && (r.w >= r.h ==> stable && AutoCrop(r, w, h).h == Height(r, AutoCrop(r, w, h).w))
  {
    hide AutoCrop, Scale, Gcd;
    var r := Turned(im.aspect, RotationOf(e));
    AutomaticAlwaysPassesCheck(im, e, w, h);
    AutoCropFits(r, w, h);
    if r.w >= r.h {
      LandscapeScalesBack(r, h);
    }
  }

  lemma UnitsAreValid()
    ensures Valid(Aspect(1, 1)) && Valid(Aspect(1, 2))
  {
    assert Gcd(1, 1) == Gcd(1, 0) == 1;
    assert Gcd(1, 2) == Gcd(2, 1) == Gcd(1, 0) == 1;
  }

  lemma SmallScales()
    ensures Scale(10, 2, 1) == 20 && Scale(3, 1, 2) == 2 && Scale(2, 2, 1) == 4 && Scale(1, 1, 1) == 1
  {
    hide Scale;
    SmallScale(10, 2, 1);
    SmallScale(3, 1, 2);
    SmallScale(2, 2, 1);
    SmallScale(1, 1, 1);
  }

  lemma SmallScale(v: int64, num: int, den: int)
    requires den > 0 && 0 <= 2 * v * num + den <= MAX_INT64
    ensures Scale(v, num, den) == Max(1, (2 * v * num + den) / (2 * den))
  {
    WrapIs(2 * v * num + den);
    hide Wrap64;
  }

  /** A portrait aspect can be unstable: 1:2 on a 10 by 3 source. */
  lemma PortraitCanBeRefusedAgain()
    ensures var im := Image(Aspect(1, 2), 0);
            var first := Resolved(im, None, 10, 3);
            && first == (Some(EditValue(Some(CropValue(4, 0, 2, 3)), 0)), None)
            && Resolved(im, first.0, 10, 3) == (None, Some(OutsideSource))
  {
    hide Gcd, Valid, Scale;
    UnitsAreValid();
    SmallScales();
    assert AutoCrop(Aspect(1, 2), 10, 3) == CropValue(4, 0, 2, 3);
    hide AutoCrop, Resolved;
    AutomaticAlwaysPassesCheck(Image(Aspect(1, 2), 0), None, 10, 3);
    ResolvingAgain(Image(Aspect(1, 2), 0), None, 10, 3);
  }

  /** A caller's crop keeps its corner, width and rotation, and resolving it again changes nothing. It is
      inside a known source exactly when neither of its sums wraps. */
  lemma GivenCropKeepsItsWidth(im: Image, e: EditValue, w: int64, h: int64)
    requires Valid(im.aspect) && e.crop.Some? && Resolved(im, Some(e), w, h).1 == None
    ensures var first := Resolved(im, Some(e), w, h);
            && first.0.Some? && first.0.value.rotate == e.rotate && first.0.value.crop.Some?
            && var c := first.0.value.crop.value;
            && (if Native(im.aspect) then c == e.crop.value
                else c == e.crop.value.(h := Height(Turned(im.aspect, e.rotate), c.w)))
            && (w > 0 && h > 0 ==> (Inside(c, w, h) <==> c.x + c.w <= MAX_INT64 && c.y + c.h <= MAX_INT64))
            && Resolved(im, first.0, w, h) == first
  {
    hide Scale, Wrap64;
    CheckAccepts(Fitted(im.aspect, Some(e), w, h), w, h);
  }

  predicate Inside(c: CropValue, w: int64, h: int64) {
    0 <= c.x && 0 <= c.y && 0 < c.w && 0 < c.h && c.x + c.w <= w && c.y + c.h <= h
  }

  /** What Check accepts. */
  lemma CheckAccepts(e: Option<EditValue>, w: int64, h: int64)
    ensures Refused(e, w, h) == None <==>
              e.None? || (&& e.value.rotate in {0, 90, 180, 270}
                          && (e.value.crop.Some? ==>
                                var c := e.value.crop.value;
                                && c.x >= 0 && c.y >= 0 && c.w > 0 && c.h > 0
                                && (w > 0 && h > 0 ==>
                                      && (c.x + c.w <= w || c.x + c.w > MAX_INT64)
                                      && (c.y + c.h <= h || c.y + c.h > MAX_INT64))))
    ensures Refused(e, w, h) == Some(BadRotation) <==> e.Some? && e.value.rotate !in {0, 90, 180, 270}
  {
    if e.Some? && e.value.crop.Some? {
      var c := e.value.crop.value;
      WrapIs(c.x + c.w);
      WrapIs(c.y + c.h);
      hide Wrap64;
    }
  }

  /** A crop beyond the last pixel an int can number is accepted, and resolved as it is. */
  lemma WrappingCropIsAccepted()
    ensures var im, e := Image(Aspect(1, 1), 0), EditValue(Some(CropValue(MAX_INT64, 0, 1, 1)), 0);
            Resolved(im, Some(e), 10, 10) == (Some(e), None) && !Inside(e.crop.value, 10, 10)
  {
    hide Gcd, Valid, Scale, Refused;
    UnitsAreValid();
    SmallScales();
    var e := EditValue(Some(CropValue(MAX_INT64, 0, 1, 1)), 0);
    assert Fitted(Aspect(1, 1), Some(e), 10, 10) == Some(e);
    CheckAccepts(Some(e), 10, 10);
  }

  // ---------------------------------------------------------------- the edited image

  /** The source pixel that a clockwise turn of the rectangle c shows at column x and row y. */
  function SourcePixel(c: CropValue, rotate: int, x: int, y: int): (int, int) {
    match rotate
    case 90 => (c.x + y, c.y + c.h - 1 - x)
    case 180 => (c.x + c.w - 1 - x, c.y + c.h - 1 - y)
    case 270 => (c.x + c.w - 1 - y, c.y + x)
    case _ => (c.x + x, c.y + y)
  }

  /** Where a source pixel is shown. */
  function ShownAt(c: CropValue, rotate: int, sx: int, sy: int): (int, int) {
    match rotate
    case 90 => (c.y + c.h - 1 - sy, sx - c.x)
    case 180 => (c.x + c.w - 1 - sx, c.y + c.h - 1 - sy)
    case 270 => (sy - c.y, c.x + c.w - 1 - sx)
    case _ => (sx - c.x, sy - c.y)
  }

  predicate InRect(p: (int, int), x: int, y: int, w: int, h: int) { x <= p.0 < x + w && y <= p.1 < y + h }

  /** A pixel of the image comes from one of the rectangle, and is the only one to show it. */
  ghost predicate PixelThere(c: CropValue, rotate: int, columns: int, rows: int, x: int, y: int) {
    InRect((x, y), 0, 0, columns, rows) ==>
      var p := SourcePixel(c, rotate, x, y);
      InRect(p, c.x, c.y, c.w, c.h) && ShownAt(c, rotate, p.0, p.1) == (x, y)
  }

  /** A pixel of the rectangle is shown in the image, and is the only one shown there. */
  ghost predicate PixelBack(c: CropValue, rotate: int, columns: int, rows: int, sx: int, sy: int) {
    InRect((sx, sy), c.x, c.y, c.w, c.h) ==>
      var p := ShownAt(c, rotate, sx, sy);
      InRect(p, 0, 0, columns, rows) && SourcePixel(c, rotate, p.0, p.1) == (sx, sy)
  }

  /** A columns by rows image shows exactly the rectangle, every pixel once. */
  ghost predicate Shows(c: CropValue, rotate: int, columns: int, rows: int) {
    && columns > 0 && rows > 0
    && (forall x, y :: PixelThere(c, rotate, columns, rows, x, y))
    && (forall sx, sy :: PixelBack(c, rotate, columns, rows, sx, sy))
  }

  /** The only image size that does. */
  lemma ShowsExactly(c: CropValue, rotate: int, columns: int, rows: int)
    requires c.w > 0 && c.h > 0 && rotate in {0, 90, 180, 270}
    ensures Shows(c, rotate, columns, rows) <==>
              (columns, rows) == if rotate in {90, 270} then (c.h, c.w) else (c.w, c.h)
  {
    if (columns, rows) == if rotate in {90, 270} then (c.h, c.w) else (c.w, c.h) {
      forall x, y ensures PixelThere(c, rotate, columns, rows, x, y) { ThereAndBack(c, rotate, columns, rows, x, y); }
      forall x, y ensures PixelBack(c, rotate, columns, rows, x, y) { BackAndThere(c, rotate, columns, rows, x, y); }
    }
    if Shows(c, rotate, columns, rows) { ShowsOnlyThen(c, rotate, columns, rows); }
  }

  lemma ThereAndBack(c: CropValue, rotate: int, columns: int, rows: int, x: int, y: int)
    requires rotate in {0, 90, 180, 270}
    requires (columns, rows) == if rotate in {90, 270} then (c.h, c.w) else (c.w, c.h)
    ensures PixelThere(c, rotate, columns, rows, x, y)
  {}

  lemma BackAndThere(c: CropValue, rotate: int, columns: int, rows: int, x: int, y: int)
    requires rotate in {0, 90, 180, 270}
    requires (columns, rows) == if rotate in {90, 270} then (c.h, c.w) else (c.w, c.h)
    ensures PixelBack(c, rotate, columns, rows, x, y)
  {}

  lemma ShowsOnlyThen(c: CropValue, rotate: int, columns: int, rows: int)
    requires c.w > 0 && c.h > 0 && rotate in {0, 90, 180, 270} && Shows(c, rotate, columns, rows)
    ensures (columns, rows) == if rotate in {90, 270} then (c.h, c.w) else (c.w, c.h)
  {
    assert PixelThere(c, rotate, columns, rows, 0, 0) && PixelThere(c, rotate, columns, rows, columns - 1, rows - 1);
    assert PixelBack(c, rotate, columns, rows, c.x, c.y);
    assert PixelBack(c, rotate, columns, rows, c.x + c.w - 1, c.y + c.h - 1);
    hide Shows;
  }

  lemma ShowsSomething(c: CropValue, rotate: int, columns: int, rows: int)
    requires Shows(c, rotate, columns, rows)
    ensures c.w > 0 && c.h > 0
  {
    assert PixelThere(c, rotate, columns, rows, 0, 0);
  }

  /** The rectangle an edit shows: its crop, or the whole source. */
  function Shown(e: Option<EditValue>, w: int64, h: int64): CropValue {
    if e.Some? && e.value.crop.Some? then e.value.crop.value else CropValue(0, 0, w, h)
  }

  /** The edit Resolve goes by before it checks it, in the caller's terms: the rotation is kept; a native
      aspect keeps the crop, another fits its height, or takes the automatic crop of a known source. Across a
      quarter turn the aspect's terms change places. */
  ghost predicate Goes(im: Image, e: Option<EditValue>, w: int64, h: int64, rotate: int64, crop: Option<CropValue>)
    requires Valid(im.aspect)
  {
    var quarter := rotate in {90, 270};
    var given := if e.Some? then e.value.crop else None;
    && rotate == (if e.Some? then e.value.rotate else 0)
    && if im.aspect.w == 0 || (given.None? && (w <= 0 || h <= 0)) then crop == given
       else
         var a := if quarter then Aspect(im.aspect.h, im.aspect.w) else im.aspect;
         crop == Some(if given.Some? then given.value.(h := Scale(given.value.w, a.h, a.w)) else AutoCrop(a, w, h))
  }

  /** Resolve accepts exactly what Check accepts and, when the width is known, shows no fewer columns than the
      minimum; the result is the edit it goes by, none when that changes nothing. */
  lemma ResolvesExactly(im: Image, e: Option<EditValue>, w: int64, h: int64, rotate: int64, crop: Option<CropValue>,
                        columns: int, rows: int)
    requires Valid(im.aspect) && Goes(im, e, w, h, rotate, crop)
    requires var whole := Some(EditValue(crop, rotate));
             || Refused(whole, w, h).Some? || Shows(Shown(whole, w, h), rotate, columns, rows)
             || (crop.None? && (w <= 0 || h <= 0) && columns == if rotate in {90, 270} then h else w)
    ensures var whole := Some(EditValue(crop, rotate));
            Resolved(im, e, w, h) ==
              if Refused(whole, w, h).Some? then (None, Refused(whole, w, h))
              else if w > 0 && columns < im.minWidth then (None, Some(TooSmall))
              else (if crop.None? && rotate == 0 then None else whole, None)
  {
    hide AutoCrop, Scale, Shows, Gcd;
    var whole := Some(EditValue(crop, rotate));
    if Refused(whole, w, h).None? {
      var c := Shown(whole, w, h);
      CheckAccepts(whole, w, h);
      if Shows(c, rotate, columns, rows) {
        ShowsSomething(c, rotate, columns, rows);
        ShowsExactly(c, rotate, columns, rows);
      }
    }
  }
}
