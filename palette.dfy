/**
 * The palette controller of the `App` component: the palette state, and the
 * transitions the user drives -- toggling a lock, regenerating unlocked
 * swatches with the space key, and resizing through the range input.
 */
module PaletteState {
  import opened Colors
  import opened Fragment

  // ---------------------------------------------------------------------------
  // Toggling a lock (`updateColor`).

  /** The `updateColor` callback on one entry. */
  function ToggleIf(c: Color, hex: string): Color
  {
    if c.hex == hex then c.(isLocked := !c.isLocked) else c
  }

  /**
   * The source's `updateColor`: flips the lock of every entry whose colour equals
   * `hex` -- not only the first one -- and leaves every other entry alone.
   */
  function Toggled(cs: seq<Color>, hex: string): (r: seq<Color>)
    ensures |r| == |cs|
    ensures forall i :: 0 <= i < |cs| ==> r[i].hex == cs[i].hex
    ensures forall i :: 0 <= i < |cs| ==> (r[i].isLocked != cs[i].isLocked <==> cs[i].hex == hex)
  {
    if cs == [] then [] else [ToggleIf(cs[0], hex)] + Toggled(cs[1..], hex)
  }

  /** Toggling the same colour twice restores the palette. */
  lemma ToggledTwice(cs: seq<Color>, hex: string)
    ensures Toggled(Toggled(cs, hex), hex) == cs
  {
  }

  /** Toggling a colour that no entry carries changes nothing. */
  lemma ToggledAbsent(cs: seq<Color>, hex: string)
    requires hex !in Hexes(cs)
    ensures Toggled(cs, hex) == cs
  {
    var r := Toggled(cs, hex);
    forall i | 0 <= i < |cs| ensures r[i] == cs[i] {
      assert Hexes(cs)[i] == cs[i].hex;
    }
  }

  // ---------------------------------------------------------------------------
  // Regenerating unlocked entries (the space-key handler).

  /** How many entries of `cs` are unlocked. */
  function UnlockedCount(cs: seq<Color>): nat
  {
    if cs == [] then 0 else (if cs[0].isLocked then 0 else 1) + UnlockedCount(cs[1..])
  }

  /**
   * The space-key map: every locked entry passes through, every unlocked one
   * is replaced by the next value of the random source (starting at `next`).
   */
  function Regenerated(cs: seq<Color>, random: Oracle, next: nat): (r: seq<Color>)
    ensures |r| == |cs|
    ensures forall i :: 0 <= i < |cs| && cs[i].isLocked ==> r[i] == cs[i]
    ensures forall i :: 0 <= i < |cs| ==> (r[i].isLocked <==> cs[i].isLocked)
  {
    if cs == [] then []
    else if cs[0].isLocked then [cs[0]] + Regenerated(cs[1..], random, next)
    else [RandomColor(random(next))] + Regenerated(cs[1..], random, next + 1)
  }

  lemma {:induction false} UnlockedCountAppend(a: seq<Color>, b: seq<Color>)
    ensures UnlockedCount(a + b) == UnlockedCount(a) + UnlockedCount(b)
    decreases |a|
  {
    if a == [] {
      assert a + b == b;
    } else {
      assert (a + b)[1..] == a[1..] + b;
      UnlockedCountAppend(a[1..], b);
    }
  }

  /**
   * The unlocked entry at position `i` receives the random value drawn after
   * the ones taken by the unlocked entries before it.
   */
  lemma {:induction false} RegeneratedAt(cs: seq<Color>, random: Oracle, next: nat, i: nat)
    requires i < |cs| && !cs[i].isLocked
    ensures Regenerated(cs, random, next)[i] == RandomColor(random(next + UnlockedCount(cs[..i])))
    decreases i
  {
    if i > 0 {
      var step := if cs[0].isLocked then 0 else 1;
      RegeneratedAt(cs[1..], random, next + step, i - 1);
      assert cs[..i][1..] == cs[1..][..i - 1];
    }
  }

  /** The number of the draw an unlocked entry at position `i` receives. */
  function DrawIndex(cs: seq<Color>, next: nat, i: nat): nat
    requires i <= |cs|
  {
    next + UnlockedCount(cs[..i])
  }

  /** An unlocked entry before position `j` makes the count of unlocked entries grow. */
  lemma UnlockedPrefixGrows(cs: seq<Color>, i: nat, j: nat)
    requires i < j <= |cs| && !cs[i].isLocked
    ensures UnlockedCount(cs[..i]) < UnlockedCount(cs[..j]) <= UnlockedCount(cs)
  {
    assert cs[..j] == cs[..i] + cs[i..j];
    UnlockedCountAppend(cs[..i], cs[i..j]);
    assert cs == cs[..j] + cs[j..];
    UnlockedCountAppend(cs[..j], cs[j..]);
  }

  /**
   * Each regenerated entry is fresh: two unlocked positions i < j receive
   * different draws, the one at i drawn before the one at j, and both are
   * among the `UnlockedCount(cs)` draws starting at `next`.
   */
  lemma RegeneratedDrawsFresh(cs: seq<Color>, random: Oracle, next: nat, i: nat, j: nat)
    requires i < j < |cs| && !cs[i].isLocked && !cs[j].isLocked
    ensures Regenerated(cs, random, next)[i] == RandomColor(random(DrawIndex(cs, next, i)))
    ensures Regenerated(cs, random, next)[j] == RandomColor(random(DrawIndex(cs, next, j)))
    ensures next <= DrawIndex(cs, next, i) < DrawIndex(cs, next, j) < next + UnlockedCount(cs)
  {
    RegeneratedAt(cs, random, next, i);
    RegeneratedAt(cs, random, next, j);
    UnlockedPrefixGrows(cs, i, j);
    UnlockedPrefixGrows(cs, j, |cs|);
    assert cs[..|cs|] == cs;
  }

  /** A palette whose every entry is locked is left as it is and draws nothing. */
  lemma {:induction false} RegeneratedAllLocked(cs: seq<Color>, random: Oracle, next: nat)
    requires forall i :: 0 <= i < |cs| ==> cs[i].isLocked
    ensures Regenerated(cs, random, next) == cs
    ensures UnlockedCount(cs) == 0
    decreases |cs|
  {
    if cs != [] {
      RegeneratedAllLocked(cs[1..], random, next);
      assert [cs[0]] + cs[1..] == cs;
    }
  }

  /** Regeneration keeps every colour valid when the random source yields valid colours. */
  lemma {:induction false} RegeneratedValid(cs: seq<Color>, valid: Validity, random: Oracle, next: nat)
    requires AllValid(cs, valid) && OracleValid(valid, random)
    ensures AllValid(Regenerated(cs, random, next), valid)
  {
    forall i | 0 <= i < |cs| && !cs[i].isLocked
      ensures valid(Regenerated(cs, random, next)[i].hex)
    {
      RegeneratedAt(cs, random, next, i);
    }
  }

  // ---------------------------------------------------------------------------
  // Resizing (`handleRangeChange`).

  /** `n` entries drawn from the random source, starting at position `next`. */
  function FreshEntries(random: Oracle, next: nat, n: nat): seq<Color>
  {
    seq(n, k requires 0 <= k < n => RandomColor(random(next + k)))
  }

  /**
   * What `handleRangeChange` makes of `cs` for the requested `count`: grows by
   * appending fresh unlocked entries, shrinks to a prefix (dropping locked
   * entries too), and otherwise leaves the palette alone.
   */
  function Resized(cs: seq<Color>, count: nat, random: Oracle, next: nat): (r: seq<Color>)
    ensures |r| == count
    ensures forall i :: 0 <= i < |cs| && i < count ==> r[i] == cs[i]
    ensures forall i :: |cs| <= i < count ==> r[i] == RandomColor(random(next + (i - |cs|)))
    ensures count <= |cs| ==> r == cs[..count]
  {
    if count > |cs| then cs + FreshEntries(random, next, count - |cs|)
    else if count < |cs| then cs[..Min(|cs|, count)]
    else cs
  }

  /** How many values of the random source resizing consumes. */
  function ResizeDraws(cs: seq<Color>, count: nat): nat
  {
    if count > |cs| then count - |cs| else 0
  }

  /** Resizing keeps every colour valid when the random source yields valid colours. */
  lemma ResizedValid(cs: seq<Color>, count: nat, valid: Validity, random: Oracle, next: nat)
    requires AllValid(cs, valid) && OracleValid(valid, random)
    ensures AllValid(Resized(cs, count, random, next), valid)
  {
  }

  // ---------------------------------------------------------------------------
  // The component state.

  /**
   * The `App` component's state: the palette (`colors`), the requested
   * length (`colorsCount`), and how many values the random source has given.
   */
  class Palette {
    var colors: seq<Color>
    var colorsCount: nat
    var drawn: nat
    const valid: Validity
    const random: Oracle

    /** The invariant every handler needs on entry. */
    ghost predicate Consistent()
      reads this
    {
      && |colors| <= RANGE_MAX
      && colorsCount <= RANGE_MAX
      && AllValid(colors, valid)
      && OracleValid(valid, random)
    }

    /** The invariant between events: the palette has the requested length. */
    ghost predicate Valid()
      reads this
    {
      Consistent() && |colors| == colorsCount
    }

    /**
     * The fragment the encoding effect writes after every change. Decoding
     * '#' + the fragment gives the same colours when the palette is
     * shareable. Through the address bar, the next load starts with the same
     * colours when the palette is reloadable; an empty palette writes "",
     * which loads as one random entry.
     */
    function Fragment(): (f: string)
      reads this
      ensures Shareable(colors, valid) ==> Hexes(HashToColors("#" + f, valid)) == Hexes(colors)
      ensures Reloadable(colors, valid) ==> Hexes(InitialColors(ReadBack(f), valid, random, drawn)) == Hexes(colors)
      ensures colors == [] ==> f == "" && InitialColors(ReadBack(f), valid, random, drawn) == [RandomColor(random(drawn))]
    {
      if Shareable(colors, valid) then
        DecodeEncode(colors, valid);
        assert Stripped(colors)[0] == colors[0].hex[1..];
        Encode(colors)
      else
        Encode(colors)
    }

    /**
     * Mounting: the palette starts as `initialColors` gives it, and the
     * requested length starts as the palette's length. The mount run of the
     * resize effect changes nothing, since the requested length already
     * matches.
     */
    constructor (hash: string, valid: Validity, random: Oracle)
      requires OracleValid(valid, random)
      ensures Valid()
      ensures this.valid == valid && this.random == random
      ensures colors == InitialColors(hash, valid, random, 0)
      ensures drawn == InitialDraws(hash)
      ensures colorsCount == |colors|
    {
      this.valid := valid;
      this.random := random;
      var initial := InitialColors(hash, valid, random, 0);
      colors := initial;
      drawn := InitialDraws(hash);
      colorsCount := |initial|;
    }

    /** The source's `generateNewColor` called without an argument: the next value of the random source. */
    method NewColor() returns (c: Color)
      modifies this`drawn
      ensures c == RandomColor(random(old(drawn)))
      ensures drawn == old(drawn) + 1
    {
      var hex := random(drawn);
      drawn := drawn + 1;
      c := GenerateNewColor(None, valid, hex);
    }

    /** The source's `updateColor`, the handler App hands each swatch as `clickHandler`. */
    method UpdateColor(hex: string)
      requires Valid()
      modifies this`colors
      ensures Valid()
      ensures colors == Toggled(old(colors), hex)
    {
      colors := Toggled(colors, hex);
    }

    /** The space-key handler: regenerate every unlocked entry. */
    method Regenerate()
      requires Valid()
      modifies this`colors, this`drawn
      ensures Valid()
      ensures colors == Regenerated(old(colors), random, old(drawn))
      ensures drawn == old(drawn) + UnlockedCount(old(colors))
    {
      RegeneratedValid(colors, valid, random, drawn);
      colors, drawn := Regenerated(colors, random, drawn), drawn + UnlockedCount(colors);
    }

    /** The source's `handleRangeChange`: bring the palette to the requested length. */
    method HandleRangeChange()
      requires Consistent()
      modifies this`colors, this`drawn
      ensures Valid()
      ensures colors == Resized(old(colors), colorsCount, random, old(drawn))
      ensures drawn == old(drawn) + ResizeDraws(old(colors), colorsCount)
    {
      var length := |colors|;
      if colorsCount > length {
        var newColors: seq<Color> := [];
        for i := 0 to colorsCount - length
          invariant colors == old(colors)
          invariant drawn == old(drawn) + i
          invariant newColors == FreshEntries(random, old(drawn), i)
        {
          var c := NewColor();
          newColors := newColors + [c];
        }
        colors := colors + newColors;
      }
      if colorsCount < length {
        colors := colors[..Min(length, colorsCount)];
      }
      ResizedValid(old(colors), colorsCount, valid, random, old(drawn));
    }

    /** A change of the range input, followed by the effect that runs when the requested length changes. */
    method SetColorsCount(n: nat)
      requires Valid() && RANGE_MIN <= n <= RANGE_MAX
      modifies this`colors, this`drawn, this`colorsCount
      ensures Valid()
      ensures colorsCount == n
      ensures colors == Resized(old(colors), n, random, old(drawn))
      ensures drawn == old(drawn) + ResizeDraws(old(colors), n)
    {
      colorsCount := n;
      HandleRangeChange();
    }
  }
}

/**
 * A session: start from the fragment a shared palette encodes to, lock the
 * first swatch, press space. The locked swatch survives; nothing else is locked
 * unless it carries the same colour.
 */
module Session {
  import opened Colors
  import opened Fragment
  import opened PaletteState

  method LockFirstThenRegenerate(shared: seq<Color>, valid: Validity, random: Oracle)
    requires OracleValid(valid, random)
    requires Shareable(shared, valid)
  {
    DecodeEncode(shared, valid);
    var p := new Palette("#" + Encode(shared), valid, random);
    assert Hexes(p.colors) == Hexes(shared);
    assert p.colors[0].hex == Hexes(p.colors)[0] == shared[0].hex;
    assert p.colors[0] == Color(shared[0].hex, false);

    p.UpdateColor(shared[0].hex);
    assert p.colors[0] == Color(shared[0].hex, true);

    p.Regenerate();
    assert p.colors[0] == Color(shared[0].hex, true);
    assert |p.colors| == |shared| == p.colorsCount;

    p.SetColorsCount(RANGE_MAX);
    assert |p.colors| == RANGE_MAX > MAX_COLORS;
    assert p.colors[0] == Color(shared[0].hex, true);
  }
}
