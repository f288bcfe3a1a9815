/** `buildFilterString` (imageProcessor.ts:129-152; imagePreview.ts:113-136
    is a verbatim copy, so the model defines it once): the CSS `filter`
    value a canvas is drawn with. */
module FilterString {
  import opened Wrappers
  import opened Strings
  import opened ConverterTypes

  /** One `filter` function call, with its argument. */
  datatype FilterPart =
    | Brightness(amount: real)
    | Contrast(amount: real)
    | Saturate(amount: real)
    | Blur(px: real)
    | Grayscale
    | Sepia

  /** Position of each kind of part in the emitted order. */
  function Rank(p: FilterPart): nat {
    match p
    case Brightness(_) => 0
    case Contrast(_) => 1
    case Saturate(_) => 2
    case Blur(_) => 3
    case Grayscale => 4
    case Sepia => 5
  }

  /** Whether the filter set gives rise to part `p`: the three colour
      adjustments whenever they are set (0 included), mapped to
      `1 + value / 100`; blur only when positive; the two toggles when true. */
  predicate Emitted(f: Filters, p: FilterPart) {
    match p
    case Brightness(a) => f.brightness.Some? && a == 1.0 + f.brightness.value / 100.0
    case Contrast(a) => f.contrast.Some? && a == 1.0 + f.contrast.value / 100.0
    case Saturate(a) => f.saturation.Some? && a == 1.0 + f.saturation.value / 100.0
    case Blur(px) => f.blur.Some? && f.blur.value > 0.0 && px == f.blur.value
    case Grayscale => f.grayscale == Some(true)
    case Sepia => f.sepia == Some(true)
  }

  /** The part of rank `k` the filter set emits, if any. */
  function Candidate(f: Filters, k: nat): (c: Option<FilterPart>)
    ensures c.Some? ==> Rank(c.value) == k && Emitted(f, c.value)
  {
    if k == 0 then (if f.brightness.Some? then Some(Brightness(1.0 + f.brightness.value / 100.0)) else None)
    else if k == 1 then (if f.contrast.Some? then Some(Contrast(1.0 + f.contrast.value / 100.0)) else None)
    else if k == 2 then (if f.saturation.Some? then Some(Saturate(1.0 + f.saturation.value / 100.0)) else None)
    else if k == 3 then (if f.blur.Some? && f.blur.value > 0.0 then Some(Blur(f.blur.value)) else None)
    else if k == 4 then (if f.grayscale == Some(true) then Some(Grayscale) else None)
    else if k == 5 then (if f.sepia == Some(true) then Some(Sepia) else None)
    else None
  }

  /** Every emitted part is the candidate of its rank. */
  lemma EmittedIsCandidate(f: Filters, p: FilterPart)
    requires Emitted(f, p)
    ensures Candidate(f, Rank(p)) == Some(p)
  {
  }

  /** The parts pushed once the tests of the ranks below `k` have run. */
  function PartsBelow(f: Filters, k: nat): seq<FilterPart>
    requires k <= 6
  {
    if k == 0 then [] else PartsBelow(f, k - 1) + AsList(Candidate(f, k - 1))
  }

  function AsList(c: Option<FilterPart>): seq<FilterPart> {
    if c.Some? then [c.value] else []
  }

  lemma {:induction false} PartsBelowMembers(f: Filters, k: nat)
    requires k <= 6
    ensures forall p :: p in PartsBelow(f, k) <==> Emitted(f, p) && Rank(p) < k
  {
    if k > 0 {
      PartsBelowMembers(f, k - 1);
      forall p ensures p in PartsBelow(f, k) <==> Emitted(f, p) && Rank(p) < k {
        if Emitted(f, p) && Rank(p) == k - 1 {
          EmittedIsCandidate(f, p);
        }
      }
    }
  }

  /** The parts pushed below rank `k` come in strictly increasing rank. */
  lemma {:induction false} PartsBelowOrder(f: Filters, k: nat)
    requires k <= 6
    ensures forall i :: 0 <= i < |PartsBelow(f, k)| ==> Rank(PartsBelow(f, k)[i]) < k
    ensures forall i, j :: 0 <= i < j < |PartsBelow(f, k)| ==> Rank(PartsBelow(f, k)[i]) < Rank(PartsBelow(f, k)[j])
  {
    if k > 0 {
      PartsBelowOrder(f, k - 1);
      var prev, ps := PartsBelow(f, k - 1), PartsBelow(f, k);
      forall i | 0 <= i < |ps| ensures Rank(ps[i]) < k {
        if i < |prev| {
          assert ps[i] == prev[i];
        }
      }
      forall i, j | 0 <= i < j < |ps| ensures Rank(ps[i]) < Rank(ps[j]) {
        assert ps[i] == prev[i];
        if j < |prev| {
          assert ps[j] == prev[j];
        }
      }
    }
  }

  /** The parts pushed for a filter set. */
  function Parts(f: Filters): seq<FilterPart> {
    PartsBelow(f, 6)
  }

  /** Exactly the emitted parts are pushed, in rank order: brightness,
      contrast, saturate, blur, grayscale, sepia. */
  lemma PartsExact(f: Filters)
    ensures forall p :: p in Parts(f) <==> Emitted(f, p)
    ensures forall i, j :: 0 <= i < j < |Parts(f)| ==> Rank(Parts(f)[i]) < Rank(Parts(f)[j])
  {
    PartsBelowMembers(f, 6);
    PartsBelowOrder(f, 6);
    forall p | Emitted(f, p) ensures Rank(p) < 6 { }
  }

  /** A part as written into the filter string; `show` stands for
      JavaScript's conversion of a number to text. */
  function Render(p: FilterPart, show: real -> string): string {
    match p
    case Brightness(a) => "brightness(" + show(a) + ")"
    case Contrast(a) => "contrast(" + show(a) + ")"
    case Saturate(a) => "saturate(" + show(a) + ")"
    case Blur(px) => "blur(" + show(px) + "px)"
    case Grayscale => "grayscale(100%)"
    case Sepia => "sepia(100%)"
  }

  function RenderAll(ps: seq<FilterPart>, show: real -> string): seq<string> {
    if ps == [] then [] else [Render(ps[0], show)] + RenderAll(ps[1..], show)
  }

  lemma {:induction false} RenderAllAppend(a: seq<FilterPart>, b: seq<FilterPart>, show: real -> string)
    ensures RenderAll(a + b, show) == RenderAll(a, show) + RenderAll(b, show)
  {
    if a == [] {
      assert a + b == b;
    } else {
      assert (a + b)[0] == a[0] && (a + b)[1..] == a[1..] + b;
      RenderAllAppend(a[1..], b, show);
    }
  }

  /** The filter value for a list of parts: the parts joined by spaces, or
      `'none'` when there are none. */
  function Text(ps: seq<FilterPart>, show: real -> string): string {
    if ps == [] then "none" else Join(RenderAll(ps, show), " ")
  }

  /** Every part's text is non-empty and starts with one of the letters
      b, c, s, g. */
  lemma RenderStart(p: FilterPart, show: real -> string)
    ensures |Render(p, show)| > 0 && Render(p, show)[0] in "bcsg"
  {
  }

  /** A join of non-empty parts starts with the first part. */
  lemma {:induction false} JoinStart(parts: seq<string>, sep: string)
    requires |parts| > 0 && |parts[0]| > 0
    ensures |Join(parts, sep)| > 0 && Join(parts, sep)[0] == parts[0][0]
  {
  }

  /** The value is `'none'` exactly when no part is emitted: no emitted part
      begins with the letter `n`. */
  lemma TextIsNoneIff(ps: seq<FilterPart>, show: real -> string)
    ensures Text(ps, show) == "none" <==> ps == []
  {
    if ps != [] {
      var rs := RenderAll(ps, show);
      RenderStart(ps[0], show);
      JoinStart(rs, " ");
      assert Text(ps, show)[0] == rs[0][0] != 'n';
    }
  }

  /** `parts.join(' ') || 'none'`, for the texts of the parts a filter set
      emits, is the filter value of those parts, and is `'none'` only when
      there are none. */
  lemma FilterValue(f: Filters, ps: seq<FilterPart>, parts: seq<string>, show: real -> string, s: string)
    requires ps == Parts(f) && parts == RenderAll(ps, show)
    requires s == if Join(parts, " ") == "" then "none" else Join(parts, " ")
    ensures s == Text(Parts(f), show)
    ensures s == "none" <==> Parts(f) == []
  {
    if ps != [] {
      RenderStart(ps[0], show);
      JoinStart(parts, " ");
    }
    TextIsNoneIff(ps, show);
  }

  /** The test of rank `k` extends the texts pushed so far by its
      candidate's text, if any. */
  lemma Pushed(f: Filters, k: nat, next: nat, show: real -> string, before: seq<string>, after: seq<string>)
    requires next == k + 1 <= 6 && before == RenderAll(PartsBelow(f, k), show)
    requires after == if Candidate(f, k).Some? then before + [Render(Candidate(f, k).value, show)] else before
    ensures after == RenderAll(PartsBelow(f, next), show)
  {
    var prev, c := PartsBelow(f, k), AsList(Candidate(f, k));
    assert PartsBelow(f, next) == prev + c;
    RenderAllAppend(prev, c, show);
    if Candidate(f, k).Some? {
      assert RenderAll(c, show) == [Render(c[0], show)] + RenderAll(c[1..], show);
    } else {
      assert RenderAll(c, show) == [];
    }
  }

  /** The first three tests of `buildFilterString` push the texts of the
      parts of ranks below 3. */
  lemma BuiltFirst(f: Filters, show: real -> string, p1: seq<string>, p2: seq<string>, p3: seq<string>)
    requires p1 == if f.brightness.Some? then [Render(Brightness(1.0 + f.brightness.value / 100.0), show)] else []
    requires p2 == if f.contrast.Some? then p1 + [Render(Contrast(1.0 + f.contrast.value / 100.0), show)] else p1
    requires p3 == if f.saturation.Some? then p2 + [Render(Saturate(1.0 + f.saturation.value / 100.0), show)] else p2
    ensures p3 == RenderAll(PartsBelow(f, 3), show)
  {
    Pushed(f, 0, 1, show, [], p1);
    Pushed(f, 1, 2, show, p1, p2);
    Pushed(f, 2, 3, show, p2, p3);
  }

  /** The last three tests push the texts of the remaining parts, so all
      six push the texts of the parts of the filter set. */
  lemma BuiltRest(f: Filters, show: real -> string, p3: seq<string>, p4: seq<string>, p5: seq<string>, p6: seq<string>)
    requires p3 == RenderAll(PartsBelow(f, 3), show)
    requires p4 == if f.blur.Some? && f.blur.value > 0.0 then p3 + [Render(Blur(f.blur.value), show)] else p3
    requires p5 == if f.grayscale == Some(true) then p4 + [Render(Grayscale, show)] else p4
    requires p6 == if f.sepia == Some(true) then p5 + [Render(Sepia, show)] else p5
    ensures p6 == RenderAll(Parts(f), show)
  {
    Pushed(f, 3, 4, show, p3, p4);
    Pushed(f, 4, 5, show, p4, p5);
    Pushed(f, 5, 6, show, p5, p6);
  }

  /** `buildFilterString`: pushes one string per emitted part and joins
      them, falling back to `'none'` when the join is empty. */
  method BuildFilterString(f: Filters, show: real -> string) returns (s: string)
    ensures s == Text(Parts(f), show)
    ensures s == "none" <==> Parts(f) == []
  {
    var parts: seq<string> := [];
    if f.brightness.Some? {
      parts := parts + [Render(Brightness(1.0 + f.brightness.value / 100.0), show)];
    }
    ghost var p1 := parts;
    if f.contrast.Some? {
      parts := parts + [Render(Contrast(1.0 + f.contrast.value / 100.0), show)];
    }
    ghost var p2 := parts;
    if f.saturation.Some? {
      parts := parts + [Render(Saturate(1.0 + f.saturation.value / 100.0), show)];
    }
    ghost var p3 := parts;
    if f.blur.Some? && f.blur.value > 0.0 {
      parts := parts + [Render(Blur(f.blur.value), show)];
    }
    ghost var p4 := parts;
    if f.grayscale == Some(true) {
      parts := parts + [Render(Grayscale, show)];
    }
    ghost var p5 := parts;
    if f.sepia == Some(true) {
      parts := parts + [Render(Sepia, show)];
    }
    BuiltFirst(f, show, p1, p2, p3);
    BuiltRest(f, show, p3, p4, p5, parts);
    s := Join(parts, " ");
    if s == "" {
      s := "none";
    }
    FilterValue(f, Parts(f), parts, show, s);
  }
}
