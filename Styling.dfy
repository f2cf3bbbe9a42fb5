/** Terminal styling as the `chalk` library applies it, kept as tags rather
    than escape codes: a styled string is a sequence of spans, each with the
    one style chalk wrapped it in, and `Text` is what a terminal without
    colour shows. */
module Styling {

  datatype Style = Plain | Dim | Green | Red | Yellow | BgGreenBright

  datatype Span = Span(style: Style, text: string)

  type Styled = seq<Span>

  /** `chalk.<style>(s)` */
  function Paint(style: Style, s: string): Styled
  {
    [Span(style, s)]
  }

  /** A string no chalk call wrapped. */
  function Unstyled(s: string): Styled
  {
    [Span(Plain, s)]
  }

  /** The characters shown, styling dropped. */
  function Text(x: Styled): string
  {
    if x == [] then "" else x[0].text + Text(x[1..])
  }

  /** Some span of `x` carries `style`. */
  predicate Shows(x: Styled, style: Style)
  {
    exists sp :: sp in x && sp.style == style
  }

  /** String concatenation of styled strings shows the two texts in order. */
  lemma {:induction false} TextAppend(a: Styled, b: Styled)
    ensures Text(a + b) == Text(a) + Text(b)
  {
    if a == [] {
      assert a + b == b;
    } else {
      assert (a + b)[1..] == a[1..] + b;
      TextAppend(a[1..], b);
    }
  }

  /** A single painted string shows exactly that string. */
  lemma TextPaint(style: Style, s: string)
    ensures Text(Paint(style, s)) == s
    ensures Text(Unstyled(s)) == s
  {
    assert Paint(style, s)[1..] == [];
    assert Unstyled(s)[1..] == [];
  }

  lemma TextAppend3(a: Styled, b: Styled, c: Styled)
    ensures Text(a + b + c) == Text(a) + Text(b) + Text(c)
  {
    TextAppend(a, b);
    TextAppend(a + b, c);
  }
}
