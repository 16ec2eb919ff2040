/** The selection and cyclic colour assignment pass (main.py lines 13 and 66-76):
    parse the colour argument, reject an empty list, and fill every layer whose
    name is on the list with the next colour of an endless cycle over the
    parsed colours.

    Line 73 builds `colors = cycle(args.colors)`, but line 76 calls
    `next(args.colors)`, on the TUPLE of parsed colours, not on the cycle. A
    tuple is not an iterator, so Python raises TypeError as soon as any layer
    matches. `RunAsWritten` models that code; `Run` models the evident intent
    (colours drawn from the cycle), and the rest of the model uses `Run`. */
module Repaint {
  import opened Wrappers
  import opened Colors
  import opened Surface
  import opened Cycle

  /** `LAYER_NAMES`: the only layers the pass touches. */
  const LayerNames: seq<string> := ["Repaint", "Repaint BLU", "Repaint RED"]

  predicate IsRepaintLayer(name: string) {
    name in LayerNames
  }

  /** A layer is selected by exact, case-sensitive equality with one of the
      three names: no prefix, suffix, case or whitespace variant matches. */
  lemma LayerNamesExact(name: string)
    ensures IsRepaintLayer(name) <==> name == "Repaint" || name == "Repaint BLU" || name == "Repaint RED"
    ensures !IsRepaintLayer("repaint") && !IsRepaintLayer("Repaint ") && !IsRepaintLayer("Repaint GREEN")
    ensures !IsRepaintLayer("Repaint red") && !IsRepaintLayer("")
  {
    assert "repaint"[0] != "Repaint"[0];
    assert "Repaint red"[8] != "Repaint RED"[8];
  }

  /** A layer as the pass sees it: its name and its pixel surface. */
  datatype Layer = Layer(name: string, image: Image)

  /** How the run can fail: a malformed colour token, an argument without any
      colour, and the TypeError of calling `next` on a tuple. */
  datatype RunError = InvalidColor(cause: ParseError) | NoColors | NotAnIterator

  /** The number of layers whose names are on the list. */
  function MatchCount(layers: seq<Layer>): (n: nat)
    ensures n <= |layers|
  {
    if |layers| == 0 then 0
    else (if IsRepaintLayer(layers[0].name) then 1 else 0) + MatchCount(layers[1..])
  }

  /** Counting over a prefix, peeling off the first layer. */
  lemma MatchCountPrefix(layers: seq<Layer>, i: nat)
    requires 1 <= i <= |layers|
    ensures MatchCount(layers[..i]) ==
            (if IsRepaintLayer(layers[0].name) then 1 else 0) + MatchCount(layers[1..][..i - 1])
  {
    assert layers[..i][1..] == layers[1..][..i - 1];
  }

  /** A matching layer is counted before the end of the list. */
  lemma {:induction false} MatchCountBelow(layers: seq<Layer>, i: nat)
    requires i < |layers| && IsRepaintLayer(layers[i].name)
    ensures MatchCount(layers[..i]) < MatchCount(layers)
  {
    if i == 0 {
      assert layers[..0] == [];
    } else {
      MatchCountBelow(layers[1..], i - 1);
      MatchCountPrefix(layers, i);
    }
  }

  /** What the layer loop promises about `out`, having already drawn `used`
      colours from the cycle: the layer at index i, if it matches, is the
      (used + matches before i)-th one served, and the cycle hands it
      `colors[that index mod |colors|]`. Layers that do not match come through
      untouched, and no layer changes name or position. */
  predicate Serves(layers: seq<Layer>, colors: seq<Rgba>, used: nat, out: seq<Layer>)
    requires |colors| > 0
  {
    |out| == |layers| &&
    (forall i :: 0 <= i < |layers| ==> out[i].name == layers[i].name) &&
    (forall i :: 0 <= i < |layers| && !IsRepaintLayer(layers[i].name) ==> out[i] == layers[i]) &&
    (forall i :: 0 <= i < |layers| && IsRepaintLayer(layers[i].name) ==>
       out[i].image == Filled(layers[i].image, colors[(used + MatchCount(layers[..i])) % |colors|]))
  }

  /** What the loop body does to one layer when `color` is the next colour
      the cycle would hand out: a matching layer is filled, any other layer is
      left as it is. */
  function Handle(layer: Layer, color: Rgba): Layer
  {
    if IsRepaintLayer(layer.name) then Layer(layer.name, Filled(layer.image, color)) else layer
  }

  /** The layer at index i of the first one handled in front of the rest,
      served, meets what `Serves` asks of index i. */
  lemma ServesAt(layers: seq<Layer>, colors: seq<Rgba>, used: nat, rest: seq<Layer>, i: nat)
    requires |colors| > 0 && i < |layers|
    requires var matched := IsRepaintLayer(layers[0].name);
             Serves(layers[1..], colors, if matched then used + 1 else used, rest)
    ensures var out := [Handle(layers[0], colors[used % |colors|])] + rest;
            out[i].name == layers[i].name &&
            (!IsRepaintLayer(layers[i].name) ==> out[i] == layers[i]) &&
            (IsRepaintLayer(layers[i].name) ==>
               out[i].image == Filled(layers[i].image, colors[(used + MatchCount(layers[..i])) % |colors|]))
  {
    var out := [Handle(layers[0], colors[used % |colors|])] + rest;
    if i == 0 {
      assert layers[..0] == [];
      assert out[0] == Handle(layers[0], colors[used % |colors|]);
    } else {
      MatchCountPrefix(layers, i);
      assert out[i] == rest[i - 1];
      assert layers[1..][i - 1] == layers[i];
    }
  }

  /** The first layer, handled, in front of the rest, served. */
  lemma ServesStep(layers: seq<Layer>, colors: seq<Rgba>, used: nat, rest: seq<Layer>)
    requires |colors| > 0 && |layers| > 0
    requires var matched := IsRepaintLayer(layers[0].name);
             Serves(layers[1..], colors, if matched then used + 1 else used, rest)
    ensures Serves(layers, colors, used, [Handle(layers[0], colors[used % |colors|])] + rest)
  {
    var out := [Handle(layers[0], colors[used % |colors|])] + rest;
    forall i | 0 <= i < |layers|
      ensures out[i].name == layers[i].name &&
              (!IsRepaintLayer(layers[i].name) ==> out[i] == layers[i]) &&
              (IsRepaintLayer(layers[i].name) ==>
                 out[i].image == Filled(layers[i].image, colors[(used + MatchCount(layers[..i])) % |colors|]))
    {
      ServesAt(layers, colors, used, rest, i);
    }
  }

  /** The layer loop of main.py lines 73-76, with `used` colours already drawn
      from the cycle. */
  function RecolorFrom(layers: seq<Layer>, colors: seq<Rgba>, used: nat): (out: seq<Layer>)
    requires |colors| > 0
    ensures Serves(layers, colors, used, out)
  {
    if |layers| == 0 then []
    else
      var head := layers[0];
      var matched := IsRepaintLayer(head.name);
      var rest := RecolorFrom(layers[1..], colors, if matched then used + 1 else used);
      ServesStep(layers, colors, used, rest);
      [Handle(head, colors[used % |colors|])] + rest
  }

  /** The pass as a whole serves the matching layers, in document order, exactly
      the colours the cycle yields: the k-th matching layer gets the k-th colour
      drawn. */
  lemma RecolorFollowsCycle(layers: seq<Layer>, colors: seq<Rgba>)
    requires |colors| > 0
    ensures var out := RecolorFrom(layers, colors, 0);
            var drawn := CycleTake(colors, MatchCount(layers));
            forall i :: 0 <= i < |layers| && IsRepaintLayer(layers[i].name) ==>
              MatchCount(layers[..i]) < |drawn| &&
              out[i].image == Filled(layers[i].image, drawn[MatchCount(layers[..i])])
  {
    var out := RecolorFrom(layers, colors, 0);
    var drawn := CycleTake(colors, MatchCount(layers));
    forall i | 0 <= i < |layers| && IsRepaintLayer(layers[i].name)
      ensures MatchCount(layers[..i]) < |drawn|
      ensures out[i].image == Filled(layers[i].image, drawn[MatchCount(layers[..i])])
    {
      MatchCountBelow(layers, i);
      CycleTakeAt(colors, MatchCount(layers), MatchCount(layers[..i]));
    }
  }

  /** main.py lines 66-76 as intended. The colour argument is parsed first (by
      the argument parser), then an empty list is rejected, then the layers are
      recoloured. Loading, rendering and saving are outside the model. */
  function Run(colorArg: string, layers: seq<Layer>): (res: Result<seq<Layer>, RunError>)
    ensures res.Success? <==> Hexs2Rgba(colorArg).Success? && |Hexs2Rgba(colorArg).value| > 0
    ensures res.Success? ==>
              var colors := Hexs2Rgba(colorArg).value;
              |res.value| == |layers| &&
              forall i :: 0 <= i < |layers| ==>
                res.value[i].name == layers[i].name &&
                (!IsRepaintLayer(layers[i].name) ==> res.value[i] == layers[i]) &&
                (IsRepaintLayer(layers[i].name) ==>
                   res.value[i].image == Filled(layers[i].image, colors[MatchCount(layers[..i]) % |colors|]))
  {
    match Hexs2Rgba(colorArg)
    case Failure(e) => Failure(InvalidColor(e))
    case Success(colors) =>
      if |colors| == 0 then Failure(NoColors)
      else Success(RecolorFrom(layers, colors, 0))
  }

  /** Errors come in the program's order: a bad token before the empty check. */
  lemma RunErrors(colorArg: string, layers: seq<Layer>)
    ensures Hexs2Rgba(colorArg).Failure? ==>
              Run(colorArg, layers) == Failure(InvalidColor(Hexs2Rgba(colorArg).error))
    ensures Hexs2Rgba(colorArg) == Success([]) ==> Run(colorArg, layers) == Failure(NoColors)
    ensures Run("", layers) == Failure(NoColors) && Run(":::", layers) == Failure(NoColors)
  {
    Hexs2RgbaEmpty();
  }

  /** The layer loop as written: the first matching layer raises TypeError
      before it is recoloured; a document without matching layers passes
      through unchanged. */
  function PassAsWritten(layers: seq<Layer>): (res: Result<seq<Layer>, RunError>)
    ensures res.Success? <==> forall i :: 0 <= i < |layers| ==> !IsRepaintLayer(layers[i].name)
    ensures res.Success? ==> res.value == layers
    ensures res.Failure? ==> res.error == NotAnIterator
  {
    if |layers| == 0 then Success([])
    else if IsRepaintLayer(layers[0].name) then Failure(NotAnIterator)
    else
      match PassAsWritten(layers[1..])
      case Failure(e) => Failure(e)
      case Success(rest) => Success([layers[0]] + rest)
  }

  /** main.py lines 66-76 as written. A malformed token and an empty list fail
      as in the intended run; the TypeError happens only once the colours are
      in hand and some layer matches. */
  function RunAsWritten(colorArg: string, layers: seq<Layer>): (res: Result<seq<Layer>, RunError>)
    ensures Hexs2Rgba(colorArg).Failure? ==> res == Failure(InvalidColor(Hexs2Rgba(colorArg).error))
    ensures Hexs2Rgba(colorArg) == Success([]) ==> res == Failure(NoColors)
    ensures res.Success? <==>
              Hexs2Rgba(colorArg).Success? && |Hexs2Rgba(colorArg).value| > 0 &&
              forall i :: 0 <= i < |layers| ==> !IsRepaintLayer(layers[i].name)
    ensures res.Success? ==> res.value == layers
    ensures Hexs2Rgba(colorArg).Success? && |Hexs2Rgba(colorArg).value| > 0 &&
            (exists i :: 0 <= i < |layers| && IsRepaintLayer(layers[i].name)) ==>
              res == Failure(NotAnIterator)
  {
    match Hexs2Rgba(colorArg)
    case Failure(e) => Failure(InvalidColor(e))
    case Success(colors) =>
      if |colors| == 0 then Failure(NoColors)
      else PassAsWritten(layers)
  }

  /** The condition of `PassAsWritten` in terms of the pass's own counter:
      the loop as written gets through exactly the documents in which the
      intended pass would draw no colour at all. */
  lemma {:induction false} PassAsWrittenNeverRecolors(layers: seq<Layer>)
    ensures PassAsWritten(layers).Success? <==> MatchCount(layers) == 0
  {
    if |layers| > 0 {
      PassAsWrittenNeverRecolors(layers[1..]);
    }
  }

  /** The code as written and the intended run agree on every input except
      one where the intended run recolours a layer: they fail alike on a bad
      token or an empty list, agree when no layer matches, and otherwise the
      code as written raises TypeError where the intended run succeeds. */
  lemma AsWrittenVersusIntended(colorArg: string, layers: seq<Layer>)
    ensures Run(colorArg, layers).Failure? ==> RunAsWritten(colorArg, layers) == Run(colorArg, layers)
    ensures Run(colorArg, layers).Success? && MatchCount(layers) == 0 ==>
              RunAsWritten(colorArg, layers) == Run(colorArg, layers)
    ensures Run(colorArg, layers).Success? && MatchCount(layers) > 0 ==>
              RunAsWritten(colorArg, layers) == Failure(NotAnIterator) != Run(colorArg, layers)
  {
    PassAsWrittenNeverRecolors(layers);
    if Run(colorArg, layers).Success? {
      var colors := Hexs2Rgba(colorArg).value;
      var out := RecolorFrom(layers, colors, 0);
      if MatchCount(layers) == 0 {
        assert forall i :: 0 <= i < |layers| ==> out[i] == layers[i];
      }
    }
  }

  /** When every layer matches, layer i gets the i-th colour the cycle yields. */
  lemma AllMatchingFollowCycle(layers: seq<Layer>, colors: seq<Rgba>)
    requires |colors| > 0
    requires forall i :: 0 <= i < |layers| ==> IsRepaintLayer(layers[i].name)
    ensures var out := RecolorFrom(layers, colors, 0);
            forall i :: 0 <= i < |layers| ==>
              out[i].image == Filled(layers[i].image, CycleTake(colors, |layers|)[i])
  {
    var out := RecolorFrom(layers, colors, 0);
    forall i | 0 <= i < |layers|
      ensures out[i].image == Filled(layers[i].image, CycleTake(colors, |layers|)[i])
    {
      AllMatch(layers[..i]);
      CycleTakeAt(colors, |layers|, i);
    }
  }

  lemma {:induction false} AllMatch(layers: seq<Layer>)
    requires forall i :: 0 <= i < |layers| ==> IsRepaintLayer(layers[i].name)
    ensures MatchCount(layers) == |layers|
  {
    if |layers| > 0 {
      AllMatch(layers[1..]);
    }
  }

  /** Match counts in front of each layer of a document whose second and fourth
      layers, and only those, are on the list. */
  lemma CountsOfDocument(layers: seq<Layer>)
    requires |layers| == 4
    requires !IsRepaintLayer(layers[0].name) && IsRepaintLayer(layers[1].name)
    requires !IsRepaintLayer(layers[2].name) && IsRepaintLayer(layers[3].name)
    ensures MatchCount(layers[..1]) == 0 && MatchCount(layers[..3]) == 1
  {
    assert layers[..1][1..] == [];
    var p := layers[..3];
    assert p[1..][1..][1..] == [];
    assert MatchCount(p[1..][1..]) == 0;
  }

  /** The recolouring pass over the four-layer document of the example below,
      with red and green. */
  lemma DocumentPass(i0: Image, i1: Image, i2: Image, i3: Image)
    ensures var layers := [Layer("Background", i0), Layer("Repaint", i1), Layer("Other", i2), Layer("Repaint RED", i3)];
            RecolorFrom(layers, [Rgba(255, 0, 0, 255), Rgba(0, 255, 0, 255)], 0) ==
              [Layer("Background", i0), Layer("Repaint", Filled(i1, Rgba(255, 0, 0, 255))),
               Layer("Other", i2), Layer("Repaint RED", Filled(i3, Rgba(0, 255, 0, 255)))]
  {
    var layers := [Layer("Background", i0), Layer("Repaint", i1), Layer("Other", i2), Layer("Repaint RED", i3)];
    var colors := [Rgba(255, 0, 0, 255), Rgba(0, 255, 0, 255)];
    assert !IsRepaintLayer("Background") && !IsRepaintLayer("Other");
    assert IsRepaintLayer("Repaint") && IsRepaintLayer("Repaint RED");
    CountsOfDocument(layers);
    var out := RecolorFrom(layers, colors, 0);
    assert out[0] == layers[0] && out[2] == layers[2];
    assert out[1] == Layer("Repaint", Filled(i1, colors[0]));
    assert out[3] == Layer("Repaint RED", Filled(i3, colors[1 % 2]));
  }

  /** A run whose argument parses to a non-empty list is the pass over it. */
  lemma RunIsPass(arg: string, layers: seq<Layer>, colors: seq<Rgba>)
    requires Hexs2Rgba(arg) == Success(colors) && |colors| > 0
    ensures Run(arg, layers) == Success(RecolorFrom(layers, colors, 0))
    ensures RunAsWritten(arg, layers) == PassAsWritten(layers)
  {
  }

  /** On the four-layer document the code as written stops at the second
      layer, whatever non-empty colour list the argument gives. */
  lemma DocumentRunAsWritten(arg: string, i0: Image, i1: Image, i2: Image, i3: Image)
    requires Hexs2Rgba(arg).Success? && |Hexs2Rgba(arg).value| > 0
    ensures var layers := [Layer("Background", i0), Layer("Repaint", i1), Layer("Other", i2), Layer("Repaint RED", i3)];
            RunAsWritten(arg, layers) == Failure(NotAnIterator)
  {
    var layers := [Layer("Background", i0), Layer("Repaint", i1), Layer("Other", i2), Layer("Repaint RED", i3)];
    assert !IsRepaintLayer("Background") && IsRepaintLayer("Repaint");
    assert layers[1..][0].name == "Repaint";
    assert PassAsWritten(layers[1..]) == Failure(NotAnIterator);
  }

  /** The end-to-end run on a four-layer document: only the second and the
      fourth layer are recoloured, red then green, while the code as written
      stops with TypeError on the second layer. */
  lemma DocumentExample(i0: Image, i1: Image, i2: Image, i3: Image)
    ensures var layers := [Layer("Background", i0), Layer("Repaint", i1), Layer("Other", i2), Layer("Repaint RED", i3)];
            Run("#ff0000:#00ff00", layers) ==
              Success([Layer("Background", i0), Layer("Repaint", Filled(i1, Rgba(255, 0, 0, 255))),
                       Layer("Other", i2), Layer("Repaint RED", Filled(i3, Rgba(0, 255, 0, 255)))]) &&
            RunAsWritten("#ff0000:#00ff00", layers) == Failure(NotAnIterator)
  {
    var layers := [Layer("Background", i0), Layer("Repaint", i1), Layer("Other", i2), Layer("Repaint RED", i3)];
    TwoColorsExample();
    RunIsPass("#ff0000:#00ff00", layers, [Rgba(255, 0, 0, 255), Rgba(0, 255, 0, 255)]);
    DocumentPass(i0, i1, i2, i3);
    DocumentRunAsWritten("#ff0000:#00ff00", i0, i1, i2, i3);
  }
}
