/**
 * The sizing decisions of `fill_badge`: which texts are fitted, from which
 * start size, against which box, and the one-line/two-line choice for the
 * name. Drawing itself, positions and the QR image are not modelled.
 */
module Badge {
  import opened Common
  import opened TextFit
  import opened RowFilter

  /** The two registered faces. */
  datatype Font = Vera | VeraBold

  /** Start size of the badge-type, job-title and organisation lines: 16 pt. */
  const LabelStart: int := 32
  /** Start size of the name: 22 pt. */
  const NameStart: int := 44
  /** Smallest size at which the full name stays on one line: 16 pt. */
  const OneLineMin: int := 32

  /** Width of `text` in `font` at a size, as the metrics library reports it. */
  type Metrics = (Font, string, int) -> real

  /**
   * `f` is what the step-down search gives `text` from `start`: a size
   * between the 0.5 pt floor and `start`, measured there, at which the text
   * fits `box` unless it is the floor, and every larger size up to `start`
   * was too wide.
   */
  ghost predicate Sized(measure: Metrics, font: Font, text: string, box: real, start: int, f: Fit)
  {
    && Floor <= f.size <= start
    && f.width == measure(font, text, f.size)
    && (measure(font, text, f.size) < box || f.size <= Floor)
    && (forall t :: f.size < t <= start ==> measure(font, text, t) >= box)
  }

  /** `fit_text` for one text in one font. */
  function FitString(measure: Metrics, font: Font, text: string, box: real, size: int): (r: Fit)
    ensures r.size <= size && (size >= Floor ==> r.size >= Floor)
    ensures r.width == measure(font, text, r.size)
    ensures measure(font, text, r.size) < box || r.size <= Floor
    ensures forall t :: r.size < t <= size ==> measure(font, text, t) >= box
    ensures size >= Floor ==> Sized(measure, font, text, box, size, r)
  {
    var m := s => measure(font, text, s);
    var r := FitText(m, box, size);
    forall t | r.size < t <= size
      ensures measure(font, text, t) >= box
    {
      assert m(t) >= box;
    }
    r
  }

  /** The name block: the full name on one line, or first over last name. */
  datatype NameBlock = OneLine(text: string, fit: Fit) | TwoLines(top: string, bottom: string, fit: Fit)

  /** The text drawn on one line: first name, a space, last name. */
  function FullName(first: string, last: string): string
  {
    first + " " + last
  }

  /**
   * `n` is a name block chosen by the 16 pt rule: the full name stays on one
   * line iff its fitted size from 22 pt is at least 16 pt, and is then set at
   * that fitted size; otherwise first over last name at the smaller of
   * their two fitted sizes (the first name's fit on a tie), above which one
   * of them is too wide and at which one of them fits unless it is the floor.
   */
  ghost predicate NameSized(measure: Metrics, first: string, last: string, box: real, n: NameBlock)
  {
    && Floor <= n.fit.size <= NameStart
    && (n.OneLine? <==> FitString(measure, VeraBold, FullName(first, last), box, NameStart).size >= OneLineMin)
    && (n.OneLine? ==>
          n.text == FullName(first, last) && n.fit.size >= OneLineMin &&
          Sized(measure, VeraBold, n.text, box, NameStart, n.fit))
    && (n.TwoLines? ==>
          && n.top == first && n.bottom == last
          && (forall t :: n.fit.size < t <= NameStart ==>
                measure(VeraBold, first, t) >= box || measure(VeraBold, last, t) >= box)
          && (measure(VeraBold, first, n.fit.size) < box || measure(VeraBold, last, n.fit.size) < box ||
              n.fit.size <= Floor)
          && (var a, b := FitString(measure, VeraBold, first, box, NameStart),
                          FitString(measure, VeraBold, last, box, NameStart);
              n.fit == (if a.size <= b.size then a else b)))
  }

  /**
   * The full name stays on one line iff its fitted size is at least 16 pt.
   * Otherwise first and last name are fitted separately and both drawn at
   * the smaller of the two sizes; on a tie the first name's metrics are used.
   */
  function LayoutName(measure: Metrics, first: string, last: string, box: real): (r: NameBlock)
    ensures var full := FitString(measure, VeraBold, FullName(first, last), box, NameStart);
      r.OneLine? <==> full.size >= OneLineMin
    ensures r.OneLine? ==>
      && r.text == FullName(first, last)
      && OneLineMin <= r.fit.size <= NameStart
      && measure(VeraBold, r.text, r.fit.size) < box
    ensures r.TwoLines? ==>
      var a := FitString(measure, VeraBold, first, box, NameStart);
      var b := FitString(measure, VeraBold, last, box, NameStart);
      && r.top == first && r.bottom == last
      && r.fit.size == Min(a.size, b.size)
      && (if a.size <= b.size then r.fit == a else r.fit == b)
      && Floor <= r.fit.size <= NameStart
  {
    var full := FitString(measure, VeraBold, FullName(first, last), box, NameStart);
    if full.size >= OneLineMin then OneLine(FullName(first, last), full)
    else
      var a := FitString(measure, VeraBold, first, box, NameStart);
      var b := FitString(measure, VeraBold, last, box, NameStart);
      TwoLines(first, last, if a.size <= b.size then a else b)
  }

  /** The name block `LayoutName` chooses follows the 16 pt rule. */
  lemma LayoutNameSized(measure: Metrics, first: string, last: string, box: real)
    ensures NameSized(measure, first, last, box, LayoutName(measure, first, last, box))
  {
  }

  /** Width of `text` in `font` never shrinks as the size grows. */
  ghost predicate GrowsWithSize(measure: Metrics, font: Font, text: string)
  {
    forall s1, s2 :: s1 <= s2 ==> measure(font, text, s1) <= measure(font, text, s2)
  }

  /**
   * When widths grow with size, both lines of a two-line name fit at the
   * shared size, unless that size is the 0.5 pt floor.
   */
  lemma TwoLinesBothFit(measure: Metrics, first: string, last: string, box: real)
    requires GrowsWithSize(measure, VeraBold, first) && GrowsWithSize(measure, VeraBold, last)
    requires LayoutName(measure, first, last, box).TwoLines?
    ensures var r := LayoutName(measure, first, last, box);
      (measure(VeraBold, first, r.fit.size) < box || r.fit.size <= Floor) &&
      (measure(VeraBold, last, r.fit.size) < box || r.fit.size <= Floor)
  {
  }

  /** ASCII upper-casing of one character. */
  function UpperChar(c: char): char
  {
    if 'a' <= c <= 'z' then (c as int - 32) as char else c
  }

  /** Upper-casing of the badge type, on ASCII letters. */
  function Upper(s: string): (r: string)
    ensures |r| == |s|
    ensures forall i :: 0 <= i < |r| ==> !('a' <= r[i] <= 'z')
    ensures forall i :: 0 <= i < |s| && !('a' <= s[i] <= 'z') ==> r[i] == s[i]
    ensures forall i :: 0 <= i < |s| && 'a' <= s[i] <= 'z' ==>
      'A' <= r[i] <= 'Z' && r[i] as int - 'A' as int == s[i] as int - 'a' as int
  {
    seq(|s|, i requires 0 <= i < |s| => UpperChar(s[i]))
  }

  /** Upper-casing twice is upper-casing once. */
  lemma UpperIdempotent(s: string)
    ensures Upper(Upper(s)) == Upper(s)
  {
  }

  /** The sizes chosen for every text on one badge. */
  datatype BadgeText = BadgeText(header: Option<Fit>, name: NameBlock, role: Fit, company: Fit)

  /**
   * `fill_badge` sizing: the upper-cased type is fitted to the full width
   * only when it is non-empty; the name uses the one/two-line rule; job
   * title and organisation are fitted to the width left beside the QR code.
   * Every size lies between the 0.5 pt floor and its start size, each text
   * fits its box unless it reached the floor, and every larger size up to
   * the start size was too wide. A one-line name fits; a two-line name is
   * set at the smaller of the two fitted sizes, above which one of them is
   * too wide.
   */
  function LayoutBadge(measure: Metrics, e: Entry, width: real, textWidth: real): (r: BadgeText)
    ensures r.header.Some? <==> |e.kind| > 0
    ensures r.header.Some? ==> Sized(measure, Vera, Upper(e.kind), width, LabelStart, r.header.value)
    ensures NameSized(measure, e.firstName, e.lastName, width, r.name)
    ensures Sized(measure, Vera, e.role, textWidth, LabelStart, r.role)
    ensures Sized(measure, Vera, e.company, textWidth, LabelStart, r.company)
  {
    LayoutNameSized(measure, e.firstName, e.lastName, width);
    var header := if |e.kind| > 0 then Some(FitString(measure, Vera, Upper(e.kind), width, LabelStart)) else None;
    var name := LayoutName(measure, e.firstName, e.lastName, width);
    var role := FitString(measure, Vera, e.role, textWidth, LabelStart);
    var company := FitString(measure, Vera, e.company, textWidth, LabelStart);
    BadgeText(header, name, role, company)
  }

  /**
   * For widths that grow with size, each single-line text is set at the
   * largest size that fits: above the 0.5 pt floor and up to 16 pt, the
   * text fits at a size iff that size is at most the chosen one.
   */
  lemma LayoutBadgeGreatest(measure: Metrics, e: Entry, width: real, textWidth: real, t: int)
    requires GrowsWithSize(measure, Vera, Upper(e.kind))
    requires GrowsWithSize(measure, Vera, e.role) && GrowsWithSize(measure, Vera, e.company)
    requires Floor < t <= LabelStart
    ensures var r := LayoutBadge(measure, e, width, textWidth);
      && (r.header.Some? ==> (measure(Vera, Upper(e.kind), t) < width <==> t <= r.header.value.size))
      && (measure(Vera, e.role, t) < textWidth <==> t <= r.role.size)
      && (measure(Vera, e.company, t) < textWidth <==> t <= r.company.size)
  {
  }
}
