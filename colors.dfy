/**
 * The palette entry and the two colour-library collaborators of the palette
 * generator: the colour library's validity check and its random colour
 * source, both left abstract.
 */
module Colors {

  /** One swatch of the palette: a colour string and whether the user pinned it. */
  datatype Color = Color(hex: string, isLocked: bool)

  datatype Option<T> = None | Some(value: T)

  /** Longest palette that decoding the address fragment keeps. */
  const MAX_COLORS: nat := 5

  /** Bounds of the range input that sets the requested palette length. */
  const RANGE_MIN: nat := 1
  const RANGE_MAX: nat := 6

  /** The colour library's validity check, left uninterpreted. */
  type Validity = string -> bool

  /** The colour library's random source: its k-th call (counting from 0) yields `random(k)`. */
  type Oracle = nat -> string

  /** The random source only ever yields strings the validity check accepts. */
  ghost predicate OracleValid(valid: Validity, random: Oracle)
  {
    forall k: nat :: valid(random(k))
  }

  /** Every entry of `cs` carries a colour the validity check accepts. */
  ghost predicate AllValid(cs: seq<Color>, valid: Validity)
  {
    forall i :: 0 <= i < |cs| ==> valid(cs[i].hex)
  }

  /** The colour strings of a palette, in display order. */
  function Hexes(cs: seq<Color>): seq<string>
  {
    seq(|cs|, i requires 0 <= i < |cs| => cs[i].hex)
  }

  /** JavaScript truthiness of an optional string argument: present and non-empty. */
  predicate Truthy(color: Option<string>)
  {
    color.Some? && color.value != ""
  }

  /** The entry built from a colour drawn from the random source. */
  function RandomColor(hex: string): Color
  {
    Color(hex, false)
  }

  /**
   * The source's `generateNewColor`: keeps the optional argument when it is
   * a non-empty valid colour, and otherwise takes the value `random` that the
   * random source yields at this call. The entry is never locked.
   */
  function GenerateNewColor(color: Option<string>, valid: Validity, random: string): (r: Color)
    ensures !r.isLocked
    ensures Truthy(color) && valid(color.value) ==> r.hex == color.value
    ensures !(Truthy(color) && valid(color.value)) ==> r.hex == random
  {
    if Truthy(color) && valid(color.value) then Color(color.value, false) else RandomColor(random)
  }

  /** The smaller of two integers, as the source's `Math.min`. */
  function Min(a: int, b: int): int
  {
    if a <= b then a else b
  }
}
