/** Cutting the colour argument into tokens (main.py `split_str`). */
module Tokens {

  const Sep: char := ':'

  /** `':'.join(pieces)`. */
  function Join(pieces: seq<string>): string
  {
    if |pieces| == 0 then ""
    else if |pieces| == 1 then pieces[0]
    else pieces[0] + [Sep] + Join(pieces[1..])
  }

  /** `s.split(':')`: the maximal separator-free runs of `s`, always at least one
      (the empty string splits into one empty piece). Joining the pieces back
      gives `s` exactly. */
  function Split(s: string): (pieces: seq<string>)
    ensures |pieces| >= 1
    ensures forall i :: 0 <= i < |pieces| ==> Sep !in pieces[i]
    ensures Join(pieces) == s
  {
    if |s| == 0 then [""]
    else
      var rest := Split(s[1..]);
      if s[0] == Sep then
        [""] + rest
      else
        var first := [s[0]] + rest[0];
        assert |rest| > 1 ==> Join(rest) == rest[0] + [Sep] + Join(rest[1..]);
        assert |rest| > 1 ==> first + [Sep] + Join(rest[1..]) == [s[0]] + Join(rest);
        assert s == [s[0]] + s[1..];
        [first] + rest[1..]
  }

  /** The non-empty pieces of `pieces`, in order. */
  function NonEmpty(pieces: seq<string>): (kept: seq<string>)
  {
    if |pieces| == 0 then []
    else if pieces[0] == "" then NonEmpty(pieces[1..])
    else [pieces[0]] + NonEmpty(pieces[1..])
  }

  /** `split_str`: the non-empty pieces of `s.split(':')`, in their original
      order; no token is empty and none contains the separator. */
  function SplitStr(s: string): (tokens: seq<string>)
    ensures forall i :: 0 <= i < |tokens| ==> tokens[i] != "" && Sep !in tokens[i]
  {
    NonEmptyProperties(Split(s));
    NonEmpty(Split(s))
  }

  lemma {:induction false} NonEmptyProperties(pieces: seq<string>)
    ensures var kept := NonEmpty(pieces);
            |kept| <= |pieces| &&
            forall i :: 0 <= i < |kept| ==> kept[i] != "" && kept[i] in pieces
  {
    if |pieces| > 0 {
      NonEmptyProperties(pieces[1..]);
    }
  }

  /** All characters of the tokens, concatenated. */
  function Concat(tokens: seq<string>): string
  {
    if |tokens| == 0 then "" else tokens[0] + Concat(tokens[1..])
  }

  /** `s` with every separator removed. */
  function DropSeps(s: string): string
  {
    if |s| == 0 then ""
    else if s[0] == Sep then DropSeps(s[1..])
    else [s[0]] + DropSeps(s[1..])
  }

  lemma {:induction false} DropSepsAppend(a: string, b: string)
    ensures DropSeps(a + b) == DropSeps(a) + DropSeps(b)
  {
    if |a| > 0 {
      assert (a + b)[1..] == a[1..] + b;
      DropSepsAppend(a[1..], b);
    } else {
      assert a + b == b;
    }
  }

  lemma {:induction false} DropSepsFree(s: string)
    requires Sep !in s
    ensures DropSeps(s) == s
  {
    if |s| > 0 {
      DropSepsFree(s[1..]);
    }
  }

  lemma {:induction false} DropSepsJoin(pieces: seq<string>)
    requires forall i :: 0 <= i < |pieces| ==> Sep !in pieces[i]
    ensures DropSeps(Join(pieces)) == Concat(pieces)
  {
    if |pieces| == 1 {
      DropSepsFree(pieces[0]);
      assert Concat(pieces) == pieces[0] + Concat([]);
    } else if |pieces| > 1 {
      DropSepsJoin(pieces[1..]);
      DropSepsAppend(pieces[0] + [Sep], Join(pieces[1..]));
      DropSepsAppend(pieces[0], [Sep]);
      DropSepsFree(pieces[0]);
    }
  }

  lemma {:induction false} ConcatNonEmpty(pieces: seq<string>)
    ensures Concat(NonEmpty(pieces)) == Concat(pieces)
  {
    if |pieces| > 0 {
      ConcatNonEmpty(pieces[1..]);
      if pieces[0] != "" {
        var kept := NonEmpty(pieces);
        assert kept[1..] == NonEmpty(pieces[1..]);
      }
    }
  }

  /** The tokens hold exactly the non-separator characters of the input, in order:
      `split_str` loses nothing but separators. */
  lemma SplitStrKeepsCharacters(s: string)
    ensures Concat(SplitStr(s)) == DropSeps(s)
  {
    DropSepsJoin(Split(s));
    ConcatNonEmpty(Split(s));
  }

  /** Splitting a separator-free prefix followed by more text: the prefix joins
      the first piece of the rest. */
  lemma {:induction false} SplitPrefix(p: string, t: string)
    requires Sep !in p
    ensures Split(p + t) == [p + Split(t)[0]] + Split(t)[1..]
  {
    if |p| > 0 {
      SplitPrefix(p[1..], t);
      assert (p + t)[1..] == p[1..] + t;
      assert [p[0]] + (p[1..] + Split(t)[0]) == p + Split(t)[0];
    } else {
      assert p + t == t;
      assert p + Split(t)[0] == Split(t)[0];
      assert Split(t) == [Split(t)[0]] + Split(t)[1..];
    }
  }

  /** Joining separator-free pieces and splitting again gives the pieces back. */
  lemma {:induction false} SplitJoin(pieces: seq<string>)
    requires |pieces| >= 1
    requires forall i :: 0 <= i < |pieces| ==> Sep !in pieces[i]
    ensures Split(Join(pieces)) == pieces
  {
    if |pieces| == 1 {
      SplitPrefix(pieces[0], "");
      assert pieces[0] + "" == pieces[0];
    } else {
      SplitJoin(pieces[1..]);
      var t := [Sep] + Join(pieces[1..]);
      assert Join(pieces) == pieces[0] + t;
      SplitPrefix(pieces[0], t);
      assert t[1..] == Join(pieces[1..]);
      assert Split(t) == [""] + pieces[1..];
      assert pieces[0] + "" == pieces[0];
    }
  }

  lemma {:induction false} NonEmptyIdentity(pieces: seq<string>)
    requires forall i :: 0 <= i < |pieces| ==> pieces[i] != ""
    ensures NonEmpty(pieces) == pieces
  {
    if |pieces| > 0 {
      NonEmptyIdentity(pieces[1..]);
    }
  }

  /** Tokens that are non-empty and separator-free survive a join followed by
      `split_str`; in particular `split_str` of no tokens is empty. */
  lemma SplitStrJoin(tokens: seq<string>)
    requires forall i :: 0 <= i < |tokens| ==> tokens[i] != "" && Sep !in tokens[i]
    ensures SplitStr(Join(tokens)) == tokens
  {
    if |tokens| == 0 {
      assert Split("") == [""];
    } else {
      SplitJoin(tokens);
      NonEmptyIdentity(tokens);
    }
  }

  /** An argument made only of separators, or nothing at all, has no tokens. */
  lemma {:induction false} SplitStrOnlySeps(s: string)
    requires forall i :: 0 <= i < |s| ==> s[i] == Sep
    ensures SplitStr(s) == []
  {
    SplitOnlySeps(s);
  }

  lemma {:induction false} SplitOnlySeps(s: string)
    requires forall i :: 0 <= i < |s| ==> s[i] == Sep
    ensures forall i :: 0 <= i < |Split(s)| ==> Split(s)[i] == ""
    ensures NonEmpty(Split(s)) == []
  {
    if |s| > 0 {
      SplitOnlySeps(s[1..]);
    }
  }

  /** One step of `Split`: a non-separator in front joins the first piece. */
  lemma SplitCons(c: char, t: string)
    requires c != Sep
    ensures Split([c] + t) == [[c] + Split(t)[0]] + Split(t)[1..]
  {
    assert ([c] + t)[1..] == t;
  }

  /** Splitting at a separator: the pieces of `a`, then the pieces of `b`. */
  lemma {:induction false} SplitAppend(a: string, b: string)
    ensures Split(a + [Sep] + b) == Split(a) + Split(b)
  {
    var t := a + [Sep] + b;
    if |a| == 0 {
      assert t == [Sep] + b;
      assert t[1..] == b;
    } else {
      var u := a[1..] + [Sep] + b;
      assert t == [a[0]] + u;
      SplitAppend(a[1..], b);
      if a[0] == Sep {
        assert t[1..] == u;
      } else {
        SplitCons(a[0], u);
        SplitCons(a[0], a[1..]);
        assert a == [a[0]] + a[1..];
        var p := Split(a[1..]);
        assert Split(u) == p + Split(b);
        assert Split(u)[0] == p[0];
        assert Split(u)[1..] == p[1..] + Split(b);
      }
    }
  }

  /** Dropping the empty pieces commutes with concatenation. */
  lemma {:induction false} NonEmptyAppend(x: seq<string>, y: seq<string>)
    ensures NonEmpty(x + y) == NonEmpty(x) + NonEmpty(y)
  {
    if |x| == 0 {
      assert x + y == y;
    } else {
      assert (x + y)[0] == x[0];
      assert (x + y)[1..] == x[1..] + y;
      NonEmptyAppend(x[1..], y);
    }
  }

  /** The tokens on either side of a separator are kept apart, in order: the
      tokens of `a`, then those of `b`. Doubled, leading and trailing separators
      add no token, because the empty pieces they make are dropped. */
  lemma SplitStrAppend(a: string, b: string)
    ensures SplitStr(a + [Sep] + b) == SplitStr(a) + SplitStr(b)
  {
    SplitAppend(a, b);
    NonEmptyAppend(Split(a), Split(b));
  }

  /** A non-empty run without separators is exactly one token. Together with
      `SplitStrAppend` and `SplitStr("") == []` this fixes `split_str` on every
      string: cut at any separator and both sides are tokenised alone. */
  lemma SplitStrSingle(s: string)
    requires s != "" && Sep !in s
    ensures SplitStr(s) == [s]
  {
    SplitJoin([s]);
    assert Join([s]) == s;
    assert [s][1..] == [];
    assert NonEmpty([s]) == [s] + NonEmpty([]);
  }

  /** `split_str` in full, on every string, by the position of its first
      separator: no separator gives one token or none, otherwise the tokens before
      the first separator come first and the rest of the string follows. */
  lemma SplitStrCases(s: string)
    ensures Sep !in s ==> SplitStr(s) == (if s == "" then [] else [s])
    ensures forall i :: 0 <= i < |s| && s[i] == Sep ==>
              SplitStr(s) == SplitStr(s[..i]) + SplitStr(s[i + 1..])
  {
    if Sep !in s {
      if s == "" {
        SplitStrOnlySeps(s);
      } else {
        SplitStrSingle(s);
      }
    }
    forall i | 0 <= i < |s| && s[i] == Sep
      ensures SplitStr(s) == SplitStr(s[..i]) + SplitStr(s[i + 1..])
    {
      assert s == s[..i] + [Sep] + s[i + 1..];
      SplitStrAppend(s[..i], s[i + 1..]);
    }
  }

  /** Leading, trailing and doubled separators are tolerated, not errors. */
  lemma SplitStrExamples(a: string, b: string)
    requires a != "" && Sep !in a && b != "" && Sep !in b
    ensures SplitStr("") == []
    ensures SplitStr(":::") == []
    ensures SplitStr([Sep] + a + [Sep, Sep] + b + [Sep]) == [a, b]
  {
    SplitStrOnlySeps("");
    SplitStrOnlySeps(":::");
    var pieces := ["", a, "", b, ""];
    SplitJoin(pieces);
    assert Join(pieces) == [Sep] + a + [Sep, Sep] + b + [Sep] by {
      assert Join(pieces[4..]) == "";
      assert Join(pieces[3..]) == b + [Sep];
      assert Join(pieces[2..]) == [Sep] + b + [Sep];
      assert Join(pieces[1..]) == a + [Sep] + [Sep] + b + [Sep];
    }
    assert NonEmpty(pieces) == [a, b] by {
      assert NonEmpty(pieces[4..]) == [];
      assert NonEmpty(pieces[3..]) == [b];
      assert NonEmpty(pieces[2..]) == [b];
      assert NonEmpty(pieces[1..]) == [a, b];
    }
  }
}
