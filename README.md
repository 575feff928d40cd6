# Palette generator: the palette state and its address-fragment codec

This project models the core of a small browser colour-palette generator (the
`App` component in `src/App.tsx`). The palette is an ordered list of swatches.
Each swatch is a colour string and a lock flag. The user can:

- lock or unlock a swatch, through the handler `updateColor` that App hands each swatch as `clickHandler`;
- press the space key to replace every unlocked swatch with a random colour;
- choose the palette length with a range input from 1 to 6.

The palette is mirrored into the page's address fragment as `ff0000-00ff00-…`.
At start-up it is decoded from that fragment, keeping at most `MAX_COLORS` = 5
colours.

The model has five modules:

- `Colors` (`colors.dfy`): the swatch datatype, the constants, `generateNewColor`,
  and the two colour-library collaborators, which are left abstract.
  - The validity check `chroma.valid` is a parameter `valid: string -> bool`.
  - The random source `chroma.random().toString()` is an oracle `random: nat -> string`.
    Its k-th call, counting from 0, yields `random(k)`. The palette counts how
    many values it has drawn (`drawn`), so every regenerated or appended swatch
    is tied to one specific draw.
- `Strings` (`strings.dfy`): JavaScript's `substring(1)`, `split` and `join` for
  a one-character separator, and the lemmas that `split` and `join` undo each other.
- `Fragment` (`fragment.dfy`): `hashToColors`, `initialColors`, the encoding
  effect, and the round trips between palette and fragment.
- `PaletteState` (`palette.dfy`): the lock toggle and the space-key
  regeneration, written as functions because the source writes them as `map`s.
  Resizing is specified as a function. The class `Palette` holds the component
  state (`colors`, `colorsCount`) and has one method per event handler.
  `HandleRangeChange` keeps the source's `for`/`push` loop.
  - `Palette.Valid()` is the invariant between events: the palette has the
    requested length, at most 6 entries, and only valid colours (given a random
    source that yields valid colours).
- `Session` (also in `palette.dfy`): a client that runs a whole session
  through the method contracts: load a shared palette, lock its first swatch,
  press space, widen the range.

Two behaviours differ from what a reader might expect; the model follows the code:

- The handler App hands each swatch as `clickHandler` (`updateColor`) flips
  the lock of **every** swatch with that colour, not only the first one (`Toggled`).
- Decoding has **no** fallback. A non-empty fragment with no valid segment gives
  an empty palette (`InitialColorsMayBeEmpty`). A reader might expect one
  random swatch here; the code returns an empty list. Because of this, the invariant proved is
  "at most 6 entries", not "1 to 6 entries".

Two further points about the shape of the code:

- There is no separate "update one colour" action in `src/App.tsx`.
  "Grow" and "shrink" are the two branches of the one handler `handleRangeChange`.
- Growing is not clamped to `MAX_COLORS`: the range input allows 6 entries (`Resized`), but a 6-entry palette reloads as its first 5 colours (`LongPaletteReloadsTruncated`).

## Model

| member | source | states |
|---|---|---|
| `Colors.GenerateNewColor` | src/App.tsx:13-18 | the entry is unlocked; a non-empty valid argument is returned as the colour exactly; otherwise the colour is the value the random source yields |
| `Strings.Drop1` | src/App.tsx:22 | `substring(1)`, also used by the encoder at line 47: a non-empty string is its first character followed by the result; the empty string gives the empty string |
| `Strings.Split` | src/App.tsx:23 | the pieces of `s` between separators: at least one piece, and no piece contains the separator |
| `Strings.Join` | src/App.tsx:48 | joining no pieces gives ""; the first piece is a prefix of the result; two or more pieces put the separator in the result (its inverse is stated by `Strings.JoinSplit` and `Strings.SplitJoin`) |
| `Strings.JoinSplit` | src/App.tsx:23 | joining the pieces of a split with the separator gives back the original string |
| `Strings.SplitJoin` | src/App.tsx:46-48 | splitting a join of one or more separator-free pieces gives back exactly those pieces |
| `Fragment.KeepValid` | src/App.tsx:25 | the filter result is no longer than its input, and holds exactly the input strings that pass the validity check |
| `Fragment.KeepValidAppend` | src/App.tsx:25 | filtering distributes over concatenation, so the kept strings stay in input order |
| `Fragment.HashToColors` | src/App.tsx:20-32 | the result has min(number of valid pieces, 5) entries; entry i is the i-th valid '#'-prefixed segment; every entry is unlocked and valid |
| `Fragment.DecodedFromSegments` | src/App.tsx:21-26 | every decoded colour is '#' followed by one of the fragment's '-'-separated segments, and is valid |
| `Fragment.DecodedComplete` | src/App.tsx:21-30 | with at most 5 valid pieces, every segment that is valid after '#' is decoded (no valid segment is lost) |
| `Fragment.DecodedTruncated` | src/App.tsx:28-30 | with more than 5 valid pieces, the colours are exactly the first 5 valid pieces, in order |
| `Fragment.DecodedEntriesAreGenerated` | src/App.tsx:13-26 | each decoded entry equals what `generateNewColor` returns on that piece, whatever the random source would yield: decoding never draws a random colour |
| `Fragment.Encode` | src/App.tsx:45-49 | an empty palette writes the empty fragment; a non-empty palette with no '-' in its colours writes a string whose '-'-pieces are exactly the colours without their first character, in order (its inverse is stated by `Fragment.DecodeEncode` and `Fragment.EncodeDecode`) |
| `Fragment.InitialColors` | src/App.tsx:34-39 | an empty fragment gives exactly one unlocked entry with the next random colour; a non-empty one gives its decoding; at most 5 entries, all unlocked, all valid if the random source yields valid colours |
| `Fragment.InitialColorsMayBeEmpty` | src/App.tsx:34-37 | a non-empty fragment with no valid segment yields an empty palette |
| `Fragment.DecodeEncode` | src/App.tsx:20-48 | decoding '#' + the encoding of 1 to 5 swatches (each '#' then a valid, '-'-free segment) gives back their colours in order, all unlocked |
| `Fragment.LongPaletteReloadsTruncated` | src/App.tsx:20-48 | a palette of more than 5 well-formed colours (the range input allows 6) decodes from '#' + its fragment as only its first 5 colours, in order |
| `Fragment.EncodeDecode` | src/App.tsx:20-48 | encoding the decoding of a fragment that starts with '#' and has at most 5 segments, all valid, gives back the fragment |
| `PaletteState.Toggled` | src/App.tsx:88-94 | same length and colours; an entry's lock flips exactly when its colour equals the clicked one |
| `PaletteState.ToggledTwice` | src/App.tsx:88-94 | toggling the same colour twice restores the palette |
| `PaletteState.ToggledAbsent` | src/App.tsx:88-94 | toggling a colour no entry carries leaves the palette unchanged |
| `PaletteState.Regenerated` | src/App.tsx:62-65 | same length; every locked entry is unchanged at its position; each position keeps its lock state, so regenerated entries are unlocked |
| `PaletteState.RegeneratedAt` | src/App.tsx:62-65 | the unlocked entry at position i gets the random draw numbered next + (unlocked entries before i) |
| `PaletteState.RegeneratedDrawsFresh` | src/App.tsx:62-65 | for unlocked positions i < j, entry i is the draw numbered next + (unlocked entries before i) and entry j the draw numbered next + (unlocked entries before j); the first number is smaller than the second, and both lie in [next, next + UnlockedCount) |
| `PaletteState.RegeneratedAllLocked` | src/App.tsx:62-65 | an all-locked palette is returned unchanged and draws nothing |
| `PaletteState.RegeneratedValid` | src/App.tsx:62-65 | regeneration keeps every colour valid when the random source yields valid colours |
| `PaletteState.Resized` | src/App.tsx:72-86 | the length becomes the requested count; existing entries below the count are kept; appended entry i is the random draw numbered next + (i - old length), unlocked; a count at or below the length gives exactly that prefix, so locked entries beyond it are dropped |
| `PaletteState.ResizedValid` | src/App.tsx:72-86 | resizing keeps every colour valid when the random source yields valid colours |
| `PaletteState.Palette.constructor` | src/App.tsx:42-43 | the state starts as `initialColors` of the fragment, with the requested count equal to its length, and satisfies the invariant |
| `PaletteState.Palette.Fragment` | src/App.tsx:34-49 | the fragment the effect writes; for 1 to 5 valid, '#'-prefixed, '-'-free colours, decoding '#' + the fragment gives back the palette's colours; when each colour also has a second character other than '#', reloading through the address bar gives back the same colours; an empty palette writes "", which loads as exactly one random swatch |
| `PaletteState.Palette.NewColor` | src/App.tsx:17 | returns an unlocked entry with the next random draw, and consumes exactly that one draw |
| `PaletteState.Palette.UpdateColor` | src/App.tsx:88-97 | the new palette is `Toggled` of the old one, and the invariant is kept |
| `PaletteState.Palette.Regenerate` | src/App.tsx:58-70 | the new palette is `Regenerated` of the old one; exactly UnlockedCount draws are consumed; the invariant is kept |
| `PaletteState.Palette.HandleRangeChange` | src/App.tsx:72-86 | the loop appends exactly count - length fresh entries, or the palette is cut to a prefix; the result is `Resized` of the old palette; the palette ends with the requested length |
| `PaletteState.Palette.SetColorsCount` | src/App.tsx:99-112 | setting the range value from 1 to 6 resizes the palette to it, keeping the invariant |

## Left out

- `src/ColorBox.tsx` (clipboard writes, the 1.5 s "copied" timer, luminance, rendering) is not part of this model.
- The wiring from the lock icon to `updateColor` is not modelled, because in this snapshot there is none. `src/ColorBox.tsx` ignores the `clickHandler` prop App passes (src/App.tsx:131) and calls a `dispatch` prop instead (src/ColorBox.tsx:14, 51-53). App never supplies `dispatch`. The model states what `updateColor` does when it is called.
- `src/App.jsx` is a separate demo built on floating-point `Math.random` and DOM side effects. It is not part of this model.
- The colour library's internals are parameters: `chroma.valid` is an arbitrary predicate, and `chroma.random()` is an oracle sequence. That every random colour is valid is an assumption (`OracleValid`), not a proof.
- I/O on `window.location.hash` is left out. The encoded fragment is `Palette.Fragment()`. What the address bar gives back is the function `Fragment.ReadBack`. Setting the fragment drops one leading '#'. Reading gives "" for an empty fragment, and '#' + the fragment otherwise. So an empty palette, or a lone "#" colour, reloads as one random swatch. A first colour starting "##" loses a '#'. `Palette.Fragment` states the reload for `Reloadable` palettes and for the empty one. Any percent-encoding a browser might apply is not modelled.
- React plumbing is left out: `useState`, the order of `useEffect` runs, the keydown listener being added and removed, and `preventDefault`. Each handler and the effect it triggers run as one atomic step.
- Palette.HandleRangeChange: the source reads the length from the render-time `colors` but appends to the latest state `prev`. The model treats them as the same value, which holds when no other update is pending. React batching is not modelled.
- Palette.SetColorsCount: it requires the value the range input can produce (1 to 6). JavaScript `slice` with a negative end is not modelled, because no input reaches it.
- Fragment.HashToColors: the in-place `splice` acts on a fresh local array that nothing else references. It is modelled as taking a prefix.
- Header text, the range-input markup and the swatch list rendering (src/App.tsx:103-137) are left out.
