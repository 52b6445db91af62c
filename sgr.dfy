/** The SGR (Select Graphic Rendition) control sequence of ECMA-48 (section 8.3.117),
    written in its 7-bit form: the Control Sequence Introducer ESC '[' (section 5.4),
    parameter substrings separated by ';', and the final byte 'm'. This is the
    reference format the generated escape sequences are checked against. */
module Sgr {
  import opened Wrappers

  /** The ESCAPE character, 0x1B. */
  const Esc: char := 27 as char

  /** Control Sequence Introducer in its 7-bit representation. */
  const Csi: string := [Esc, '[']

  /** Parameter separator, 0x3B. */
  const Separator: char := ';'

  /** Final byte identifying SGR, 0x6D. */
  const SgrFinal: char := 'm'

  /** A parameter substring: it never contains the separator. */
  predicate IsParameter(p: string) {
    Separator !in p
  }

  /** Parameter substrings joined by the separator. */
  function Join(ps: seq<string>): string
    requires |ps| >= 1
    decreases |ps|
  {
    if |ps| == 1 then ps[0] else ps[0] + [Separator] + Join(ps[1..])
  }

  /** A parameter string cut at every separator. */
  function Split(s: string): (ps: seq<string>)
    ensures |ps| >= 1
    ensures forall i :: 0 <= i < |ps| ==> IsParameter(ps[i])
  {
    if s == [] then [[]]
    else
      var rest := Split(s[1..]);
      if s[0] == Separator then [[]] + rest else [[s[0]] + rest[0]] + rest[1..]
  }

  /** The SGR control sequence with the given parameters. */
  function Sequence(ps: seq<string>): string
    requires |ps| >= 1
  {
    Csi + Join(ps) + [SgrFinal]
  }

  /** The parameters of an SGR control sequence, or None when `s` does not
      start with CSI and end with the SGR final byte. */
  function Parameters(s: string): Option<seq<string>>
  {
    if |s| >= 3 && s[..2] == Csi && s[|s| - 1] == SgrFinal then Some(Split(s[2..|s| - 1])) else None
  }

  /** Joining one more parameter in front. */
  lemma JoinCons(p: string, ps: seq<string>)
    requires |ps| >= 1
    ensures Join([p] + ps) == p + [Separator] + Join(ps)
  {
  }

  /** Joining two more parameters in front. */
  lemma JoinTwoMore(p: string, q: string, ps: seq<string>)
    requires |ps| >= 1
    ensures Join([p, q] + ps) == p + [Separator] + (q + [Separator] + Join(ps))
  {
  }

  /** A string without separators is a single parameter. */
  lemma {:induction false} SplitParameter(w: string)
    requires IsParameter(w)
    ensures Split(w) == [w]
    decreases |w|
  {
    if w != [] {
      SplitParameter(w[1..]);
      assert [w[0]] + w[1..] == w;
    }
  }

  /** Splitting stops at the first separator. */
  lemma {:induction false} SplitAtSeparator(w: string, t: string)
    requires IsParameter(w)
    ensures Split(w + [Separator] + t) == [w] + Split(t)
    decreases |w|
  {
    var s := w + [Separator] + t;
    if w == [] {
      assert s[1..] == t;
    } else {
      assert s[1..] == w[1..] + [Separator] + t;
      SplitAtSeparator(w[1..], t);
      assert [w[0]] + w[1..] == w;
    }
  }

  /** Splitting undoes joining. */
  lemma {:induction false} SplitJoin(ps: seq<string>)
    requires |ps| >= 1
    requires forall i :: 0 <= i < |ps| ==> IsParameter(ps[i])
    ensures Split(Join(ps)) == ps
    decreases |ps|
  {
    if |ps| == 1 {
      SplitParameter(ps[0]);
    } else {
      SplitAtSeparator(ps[0], Join(ps[1..]));
      SplitJoin(ps[1..]);
      assert [ps[0]] + ps[1..] == ps;
    }
  }

  /** Joining undoes splitting. */
  lemma {:induction false} JoinSplit(s: string)
    ensures Join(Split(s)) == s
    decreases |s|
  {
    if s != [] {
      var rest := Split(s[1..]);
      JoinSplit(s[1..]);
      if s[0] == Separator {
        assert ([[]] + rest)[1..] == rest;
      } else if |rest| == 1 {
        assert [s[0]] + s[1..] == s;
      } else {
        var ps := [[s[0]] + rest[0]] + rest[1..];
        assert ps[1..] == rest[1..];
        assert [s[0]] + s[1..] == s;
      }
    }
  }

  /** Parsing a sequence gives back its parameters. */
  lemma ParametersOfSequence(ps: seq<string>)
    requires |ps| >= 1
    requires forall i :: 0 <= i < |ps| ==> IsParameter(ps[i])
    ensures Parameters(Sequence(ps)) == Some(ps)
  {
    var s := Sequence(ps);
    assert s[..2] == Csi;
    assert s[2..|s| - 1] == Join(ps);
    SplitJoin(ps);
  }

  /** A string that parses is the sequence of the parameters it parses to. */
  lemma SequenceOfParameters(s: string)
    requires Parameters(s).Some?
    ensures Sequence(Parameters(s).value) == s
  {
    JoinSplit(s[2..|s| - 1]);
    assert s == s[..2] + s[2..|s| - 1] + [s[|s| - 1]];
  }
}
