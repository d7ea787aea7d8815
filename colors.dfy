/** Cell colours: an RGB triple tagged with a status code, and the
    assignment rule that every cell write of the canvas goes through. */
module Colors {

  /** An 8-bit colour component (an `unsigned char`). */
  type Byte = x: int | 0 <= x < 256

  /** The status tag of a colour: `NONE`, `BOUNDARY` or `TEMP`. */
  datatype ColorCode = Plain | Boundary | Temp

  datatype Color = Color(r: Byte, g: Byte, b: Byte, code: ColorCode)

  /** The RGB part of a colour, without its code. */
  datatype Rgb = Rgb(r: Byte, g: Byte, b: Byte)

  function RgbOf(c: Color): Rgb {
    Rgb(c.r, c.g, c.b)
  }

  /** The default-constructed colour is white with code NONE. */
  const White := Color(255, 255, 255, Plain)
  const Black := Color(0, 0, 0, Plain)
  const Red := Color(255, 0, 0, Plain)
  const Green := Color(0, 255, 0, Plain)
  const Blue := Color(0, 0, 255, Plain)
  /** The preview colour used for rubber-band drawing. */
  const TempColor := Color(0, 0, 0, Temp)

  /** The value a cell holds after the assignment `dst = src`: a TEMP
      source only retags the destination, any other source is copied. */
  function Assign(dst: Color, src: Color): (r: Color)
    ensures r.code == src.code
    ensures RgbOf(r) == if src.code == Temp then RgbOf(dst) else RgbOf(src)
  {
    if src.code == Temp then dst.(code := Temp) else src
  }

  /** `get_reverse`: the component-wise complement, with the constructor's default code. */
  function GetReverse(c: Color): (r: Color)
    ensures r.code == Plain
    ensures r.r + c.r == 255 && r.g + c.g == 255 && r.b + c.b == 255
  {
    Color(255 - c.r, 255 - c.g, 255 - c.b, Plain)
  }

  /** `reverse`: complements the components in place and keeps the code. */
  function Reverse(c: Color): (r: Color)
    ensures r.code == c.code
    ensures r.r + c.r == 255 && r.g + c.g == 255 && r.b + c.b == 255
  {
    c.(r := 255 - c.r, g := 255 - c.g, b := 255 - c.b)
  }

  /** Assigning a TEMP colour keeps the destination's RGB and only sets its code. */
  lemma AssignTempKeepsRgb(dst: Color, src: Color)
    requires src.code == Temp
    ensures RgbOf(Assign(dst, src)) == RgbOf(dst)
    ensures Assign(dst, src).code == Temp
  {
  }

  /** Any other assignment makes the destination equal to the source in all four fields. */
  lemma AssignCopiesNonTemp(dst: Color, src: Color)
    requires src.code != Temp
    ensures Assign(dst, src) == src
  {
  }

  /** The result is TEMP exactly when the source is; it is independent of
      the destination exactly when the source is not TEMP. */
  lemma AssignCode(dst: Color, src: Color)
    ensures Assign(dst, src).code == Temp <==> src.code == Temp
    ensures src.code != Temp ==> forall other: Color :: Assign(other, src) == Assign(dst, src)
  {
  }

  /** Repeating a write changes nothing: the canvas may write the same cell twice. */
  lemma AssignIdempotent(dst: Color, src: Color)
    ensures Assign(Assign(dst, src), src) == Assign(dst, src)
  {
  }

  lemma GetReverseInvolution(c: Color)
    ensures GetReverse(GetReverse(c)) == c.(code := Plain)
    ensures GetReverse(c).code == Plain
  {
  }

  lemma ReverseInvolution(c: Color)
    ensures Reverse(Reverse(c)) == c
    ensures Reverse(c).code == c.code
    ensures RgbOf(Reverse(c)) == RgbOf(GetReverse(c))
  {
  }
}
