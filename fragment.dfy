/**
 * The address-fragment codec of the palette: `hashToColors` decodes a
 * fragment such as "#ff0000-00ff00" into unlocked entries, `initialColors`
 * chooses between decoding and one random entry at start-up, and the
 * encoding effect writes the palette back as "ff0000-00ff00".
 */
module Fragment {
  import opened Colors
  import opened Strings

  /** The pieces of the fragment after its leading character, split on '-'. */
  function Segments(hash: string): seq<string>
  {
    Split(Drop1(hash), '-')
  }

  /** Prefixes every segment with '#'. */
  function Prefixed(segs: seq<string>): seq<string>
  {
    seq(|segs|, i requires 0 <= i < |segs| => "#" + segs[i])
  }

  /** Keeps the strings the validity check accepts, in their original order. */
  function KeepValid(xs: seq<string>, valid: Validity): (r: seq<string>)
    ensures |r| <= |xs|
    ensures forall x :: x in r <==> x in xs && valid(x)
  {
    if xs == [] then []
    else (if valid(xs[0]) then [xs[0]] else []) + KeepValid(xs[1..], valid)
  }

  /** Turns each piece, known to be valid, into an unlocked entry (see `DecodedEntriesAreGenerated`). */
  function ToEntries(hexes: seq<string>): seq<Color>
  {
    seq(|hexes|, i requires 0 <= i < |hexes| => Color(hexes[i], false))
  }

  /** The '#'-prefixed segments that pass the validity check, before truncation. */
  function ValidPieces(hash: string, valid: Validity): seq<string>
  {
    KeepValid(Prefixed(Segments(hash)), valid)
  }

  /**
   * The source's `hashToColors`: the first `MAX_COLORS` valid pieces of the fragment,
   * each as an unlocked entry. Nothing replaces an empty result.
   */
  function HashToColors(hash: string, valid: Validity): (r: seq<Color>)
    ensures |r| == Min(|ValidPieces(hash, valid)|, MAX_COLORS)
    ensures forall i :: 0 <= i < |r| ==> !r[i].isLocked && valid(r[i].hex)
    ensures forall i :: 0 <= i < |r| ==> r[i].hex == ValidPieces(hash, valid)[i]
  {
    var result := ToEntries(ValidPieces(hash, valid));
    // drops, in place on a fresh local list, the entries after the first MAX_COLORS
    if |result| > MAX_COLORS then result[..MAX_COLORS] else result
  }

  /** Each colour without its first character. */
  function Stripped(cs: seq<Color>): seq<string>
  {
    seq(|cs|, i requires 0 <= i < |cs| => Drop1(cs[i].hex))
  }

  /** No colour of the palette contains the separator '-'. */
  predicate NoSeparator(cs: seq<Color>)
  {
    forall i :: 0 <= i < |cs| ==> '-' !in cs[i].hex
  }

  /** Every colour is '#' followed by a '-'-free segment, and is valid. */
  predicate WellFormedColors(p: seq<Color>, valid: Validity)
  {
    forall i :: 0 <= i < |p| ==>
      |p[i].hex| >= 1 && p[i].hex[0] == '#' && '-' !in p[i].hex && valid(p[i].hex)
  }

  /**
   * A palette that '#' + its fragment carries faithfully: 1 to `MAX_COLORS`
   * well-formed entries.
   */
  predicate Shareable(p: seq<Color>, valid: Validity)
  {
    1 <= |p| <= MAX_COLORS && WellFormedColors(p, valid)
  }

  /**
   * A shareable palette that also survives the address bar: every colour has
   * a character after its '#', and that character is not a second '#'.
   */
  predicate Reloadable(p: seq<Color>, valid: Validity)
  {
    && Shareable(p, valid)
    && forall i :: 0 <= i < |p| ==> |p[i].hex| >= 2 && p[i].hex[1] != '#'
  }

  /**
   * What the address bar reports after its fragment is set to `written`:
   * setting drops one leading '#', and reading gives "" for an empty
   * fragment and '#' followed by the fragment otherwise.
   */
  function ReadBack(written: string): string
  {
    var stored := if |written| >= 1 && written[0] == '#' then written[1..] else written;
    if stored == "" then "" else "#" + stored
  }

  /** Dropping a character keeps a colour free of '-'. */
  lemma StrippedWithoutSeparator(cs: seq<Color>)
    requires NoSeparator(cs)
    ensures forall i :: 0 <= i < |Stripped(cs)| ==> '-' !in Stripped(cs)[i]
  {
  }

  /**
   * The fragment the encoding effect writes: each colour without its first
   * character, joined by '-'. An empty palette writes the empty fragment;
   * otherwise, when no colour contains '-', splitting the fragment on '-'
   * gives back the stripped colours one by one, in order.
   */
  function Encode(cs: seq<Color>): (r: string)
    ensures cs == [] ==> r == ""
    ensures cs != [] && NoSeparator(cs) ==> Split(r, '-') == Stripped(cs)
  {
    if cs != [] && NoSeparator(cs) then
      StrippedWithoutSeparator(cs);
      SplitJoin(Stripped(cs), '-');
      Join(Stripped(cs), '-')
    else
      Join(Stripped(cs), '-')
  }

  /**
   * The source's `initialColors`: decodes a non-empty fragment, and otherwise starts with
   * one entry drawn from the random source at position `next`.
   */
  function InitialColors(hash: string, valid: Validity, random: Oracle, next: nat): (r: seq<Color>)
    ensures hash == "" ==> |r| == 1 && !r[0].isLocked && r[0].hex == random(next)
    ensures hash != "" ==> r == HashToColors(hash, valid)
    ensures |r| <= MAX_COLORS
    ensures forall i :: 0 <= i < |r| ==> !r[i].isLocked
    ensures OracleValid(valid, random) ==> AllValid(r, valid)
  {
    if hash != "" then HashToColors(hash, valid)
    else [GenerateNewColor(None, valid, random(next))]
  }

  /** How many values of the random source `initialColors` consumes. */
  function InitialDraws(hash: string): nat
  {
    if hash == "" then 1 else 0
  }

  // ---------------------------------------------------------------------------
  // Filtering keeps the order of its input.

  /** The filter distributes over concatenation, so it keeps relative order. */
  lemma {:induction false} KeepValidAppend(a: seq<string>, b: seq<string>, valid: Validity)
    ensures KeepValid(a + b, valid) == KeepValid(a, valid) + KeepValid(b, valid)
    decreases |a|
  {
    if a != [] {
      assert (a + b)[0] == a[0];
      assert (a + b)[1..] == a[1..] + b;
      KeepValidAppend(a[1..], b, valid);
      var head := if valid(a[0]) then [a[0]] else [];
      assert KeepValid(a + b, valid) == head + (KeepValid(a[1..], valid) + KeepValid(b, valid));
      assert KeepValid(a, valid) == head + KeepValid(a[1..], valid);
    } else {
      assert a + b == b;
    }
  }

  /** The filter keeps a sequence whose every element is valid unchanged. */
  lemma {:induction false} KeepValidAll(xs: seq<string>, valid: Validity)
    requires forall i :: 0 <= i < |xs| ==> valid(xs[i])
    ensures KeepValid(xs, valid) == xs
    decreases |xs|
  {
    if xs != [] {
      KeepValidAll(xs[1..], valid);
      assert [xs[0]] + xs[1..] == xs;
    }
  }

  /** The filter drops everything from a sequence with no valid element. */
  lemma {:induction false} KeepValidNone(xs: seq<string>, valid: Validity)
    requires forall x :: x in xs ==> !valid(x)
    ensures KeepValid(xs, valid) == []
    decreases |xs|
  {
    if xs != [] {
      assert xs[0] in xs;
      forall x | x in xs[1..] ensures !valid(x) {
        assert x in xs;
      }
      KeepValidNone(xs[1..], valid);
    }
  }

  // ---------------------------------------------------------------------------
  // What decoding keeps.

  /**
   * Every decoded colour is '#' followed by one of the fragment's segments,
   * and passes the validity check.
   */
  lemma DecodedFromSegments(hash: string, valid: Validity)
    ensures forall i :: 0 <= i < |HashToColors(hash, valid)| ==>
      var h := HashToColors(hash, valid)[i].hex;
      |h| >= 1 && h[0] == '#' && h[1..] in Segments(hash) && valid(h)
  {
  }

  /**
   * When at most `MAX_COLORS` pieces are valid, every segment whose
   * '#'-prefixed form is valid is decoded.
   */
  lemma DecodedComplete(hash: string, valid: Validity)
    requires |ValidPieces(hash, valid)| <= MAX_COLORS
    ensures forall seg :: seg in Segments(hash) && valid("#" + seg) ==>
      "#" + seg in Hexes(HashToColors(hash, valid))
  {
    var segs := Segments(hash);
    var r := HashToColors(hash, valid);
    var pieces := ValidPieces(hash, valid);
    assert Hexes(r) == pieces;
    forall seg | seg in segs && valid("#" + seg)
      ensures "#" + seg in pieces
    {
      var j :| 0 <= j < |segs| && segs[j] == seg;
      assert Prefixed(segs)[j] == "#" + seg;
    }
  }

  /**
   * When more than `MAX_COLORS` pieces are valid, decoding keeps exactly the
   * first `MAX_COLORS` of them, in order.
   */
  lemma DecodedTruncated(hash: string, valid: Validity)
    requires |ValidPieces(hash, valid)| > MAX_COLORS
    ensures Hexes(HashToColors(hash, valid)) == ValidPieces(hash, valid)[..MAX_COLORS]
  {
  }

  /**
   * Each decoded entry is exactly what `generateNewColor` returns on that
   * piece, whatever the random source would have produced: the random
   * source is never consulted while decoding.
   */
  lemma DecodedEntriesAreGenerated(hash: string, valid: Validity, random: string)
    ensures forall i :: 0 <= i < |HashToColors(hash, valid)| ==>
      HashToColors(hash, valid)[i] == GenerateNewColor(Some(HashToColors(hash, valid)[i].hex), valid, random)
  {
  }

  /**
   * A non-empty fragment with no valid segment decodes to an empty palette:
   * `initialColors` has no fallback in that case.
   */
  lemma InitialColorsMayBeEmpty(hash: string, valid: Validity, random: Oracle, next: nat)
    requires hash != ""
    requires forall seg :: seg in Segments(hash) ==> !valid("#" + seg)
    ensures InitialColors(hash, valid, random, next) == []
  {
    var p := Prefixed(Segments(hash));
    forall x | x in p ensures !valid(x) {
      var j :| 0 <= j < |p| && p[j] == x;
      assert Segments(hash)[j] in Segments(hash);
    }
    KeepValidNone(p, valid);
  }

  // ---------------------------------------------------------------------------
  // Round trips between the palette and the fragment.

  /**
   * Decoding the written fragment reproduces the palette's colours, all
   * unlocked, for a palette of 1 to `MAX_COLORS` entries whose colours are
   * '#' followed by a valid, '-'-free segment.
   */
  lemma DecodeEncode(p: seq<Color>, valid: Validity)
    requires Shareable(p, valid)
    ensures Hexes(HashToColors("#" + Encode(p), valid)) == Hexes(p)
    ensures forall i :: 0 <= i < |HashToColors("#" + Encode(p), valid)| ==>
      !HashToColors("#" + Encode(p), valid)[i].isLocked
  {
    EncodedPieces(p, valid);
  }

  /**
   * A palette longer than `MAX_COLORS` (the range input allows 6) reloads
   * from '#' + its fragment as only its first `MAX_COLORS` colours.
   */
  lemma LongPaletteReloadsTruncated(p: seq<Color>, valid: Validity)
    requires |p| > MAX_COLORS && WellFormedColors(p, valid)
    ensures Hexes(HashToColors("#" + Encode(p), valid)) == Hexes(p)[..MAX_COLORS]
  {
    EncodedPieces(p, valid);
    DecodedTruncated("#" + Encode(p), valid);
  }

  /** The valid pieces of '#' + the fragment of a well-formed palette are its colours. */
  lemma EncodedPieces(p: seq<Color>, valid: Validity)
    requires p != [] && WellFormedColors(p, valid)
    ensures ValidPieces("#" + Encode(p), valid) == Hexes(p)
  {
    var hash := "#" + Encode(p);
    var stripped := Stripped(p);
    assert Drop1(hash) == Encode(p);
    assert NoSeparator(p);
    assert Segments(hash) == stripped;
    assert Prefixed(stripped) == Hexes(p) by {
      forall i | 0 <= i < |p| ensures Prefixed(stripped)[i] == p[i].hex {
        assert p[i].hex == [p[i].hex[0]] + p[i].hex[1..];
      }
    }
    KeepValidAll(Hexes(p), valid);
  }

  /**
   * Writing back a decoded fragment reproduces it, when it starts with '#',
   * has at most `MAX_COLORS` segments and every segment is valid after '#'.
   */
  lemma EncodeDecode(hash: string, valid: Validity)
    requires |hash| >= 1 && hash[0] == '#'
    requires |Segments(hash)| <= MAX_COLORS
    requires forall seg :: seg in Segments(hash) ==> valid("#" + seg)
    ensures "#" + Encode(HashToColors(hash, valid)) == hash
  {
    var segs := Segments(hash);
    var p := Prefixed(segs);
    forall i | 0 <= i < |p| ensures valid(p[i]) {
      assert segs[i] in segs;
    }
    KeepValidAll(p, valid);
    var r := HashToColors(hash, valid);
    assert Stripped(r) == segs by {
      forall i | 0 <= i < |segs| ensures Stripped(r)[i] == segs[i] {
        assert r[i].hex == "#" + segs[i];
      }
    }
    JoinSplit(Drop1(hash), '-');
  }
}
