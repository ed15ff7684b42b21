/**
 * The per-character encoder of src/lib.rs (`transform`): walk the string's
 * scalar values with their zero-based offsets, turn each accepted one into a
 * signed code unit and each rejected one into an "unsupported character"
 * marker, append one `0` terminator, and derive from that either the finished
 * null-terminated array or the list of diagnostics.
 */
module Encoder {
  import opened WidthPolicy

  datatype Option<T> = None | Some(value: T)

  /** One "Unsupported character ... at offset ..." report. */
  datatype Diagnostic = Diagnostic(ch: char, offset: nat)

  /** What one position of the generated array holds: a code unit, or an error marker. */
  datatype Entry = Unit(value: int) | Unsupported(diag: Diagnostic)

  /** The finished literal: its unit width (the pointer type) and its units in order. */
  datatype Artifact = Artifact(width: TransformType, units: seq<int>)

  /** A successful expansion, or a failed one that reports every offending character. */
  datatype Outcome = Built(artifact: Artifact) | Failed(diagnostics: seq<Diagnostic>)

  /** The body of the `map` closure: range check, then truncation or an error marker. */
  function EncodeChar(t: TransformType, c: char, offset: nat): (e: Entry)
    ensures e.Unit? <==> c as int <= MaxChar(t)
    ensures e.Unit? ==> InSignedRange(t, e.value) && AsUnsigned(t, e.value) == c as int
    ensures e.Unsupported? ==> e.diag == Diagnostic(c, offset)
  {
    if c as int <= MaxChar(t) then
      AsSignedOfAccepted(t, c as int);
      Unit(AsSigned(t, c as int))
    else
      Unsupported(Diagnostic(c, offset))
  }

  /** `chars().enumerate().map(...)` over s, with the offsets counted from `offset`. */
  function EncodeFrom(t: TransformType, s: string, offset: nat): (r: seq<Entry>)
    ensures |r| == |s|
    ensures forall i :: 0 <= i < |s| ==> r[i] == EncodeChar(t, s[i], offset + i)
    decreases |s|
  {
    if s == [] then [] else [EncodeChar(t, s[0], offset)] + EncodeFrom(t, s[1..], offset + 1)
  }

  /**
   * The array `transform` emits: one entry per character, in input order and
   * numbered from zero, followed by the terminator `0`.
   */
  function Transform(t: TransformType, s: string): (r: seq<Entry>)
    ensures |r| == |s| + 1
    ensures r[|s|] == Unit(0)
    ensures forall i :: 0 <= i < |s| ==> r[i] == EncodeChar(t, s[i], i)
  {
    EncodeFrom(t, s, 0) + [Unit(0)]
  }

  /**
   * The terminator is the only zero unit the encoder adds: a position holds
   * `Unit(0)` exactly when it is the last one or the input has a NUL character there.
   */
  lemma TerminatorPlacement(t: TransformType, s: string, i: nat)
    requires i <= |s|
    ensures Transform(t, s)[i] == Unit(0) <==> i == |s| || s[i] == '\0'
  {
    if i < |s| && s[i] as int <= MaxChar(t) {
      AsSignedZero(t, s[i] as int);
    }
  }

  /** The error markers of a sequence of entries, in order. */
  function Errors(r: seq<Entry>): (d: seq<Diagnostic>)
    ensures |d| <= |r|
    ensures d == [] <==> forall i :: 0 <= i < |r| ==> r[i].Unit?
  {
    if r == [] then []
    else if r[0].Unsupported? then [r[0].diag] + Errors(r[1..])
    else Errors(r[1..])
  }

  /** Every collected diagnostic is the content of a marker of the array. */
  lemma {:induction false} ErrorsAreMarkers(r: seq<Entry>)
    ensures forall k :: 0 <= k < |Errors(r)| ==> Unsupported(Errors(r)[k]) in r
  {
    if r != [] {
      ErrorsAreMarkers(r[1..]);
      var rest := Errors(r[1..]);
      assert forall k :: 0 <= k < |rest| ==> Unsupported(rest[k]) in r by {
        forall k | 0 <= k < |rest| ensures Unsupported(rest[k]) in r {
          var j :| 0 <= j < |r[1..]| && r[1..][j] == Unsupported(rest[k]);
          assert r[j + 1] == Unsupported(rest[k]);
        }
      }
      if r[0].Unsupported? {
        var d := [r[0].diag] + rest;
        assert Errors(r) == d;
        forall k | 0 <= k < |d| ensures Unsupported(d[k]) in r {
          if k > 0 {
            assert d[k] == rest[k - 1];
          }
        }
      } else {
        assert Errors(r) == rest;
      }
    }
  }

  lemma {:induction false} ErrorsAppend(a: seq<Entry>, b: seq<Entry>)
    ensures Errors(a + b) == Errors(a) + Errors(b)
  {
    if a == [] {
      assert a + b == b;
    } else {
      assert (a + b)[1..] == a[1..] + b;
      ErrorsAppend(a[1..], b);
    }
  }

  /**
   * r is the walk's array for s with offsets counted from `base`: a marker
   * stands exactly where a character is rejected, and names that character
   * at its offset.
   */
  predicate Marks(t: TransformType, r: seq<Entry>, s: string, base: nat)
  {
    && |r| == |s|
    && forall i :: 0 <= i < |r| ==>
         && (r[i].Unsupported? <==> s[i] as int > MaxChar(t))
         && (r[i].Unsupported? ==> r[i].diag == Diagnostic(s[i], base + i))
  }

  lemma MarksTail(t: TransformType, r: seq<Entry>, s: string, base: nat)
    requires Marks(t, r, s, base) && r != []
    ensures Marks(t, r[1..], s[1..], base + 1)
  {
    forall i | 0 <= i < |r| - 1
      ensures r[1..][i] == r[i + 1] && s[1..][i] == s[i + 1]
    {
    }
  }

  /** Each diagnostic of d names a character of s rejected at t, at its offset from `base`. */
  predicate Reports(t: TransformType, d: seq<Diagnostic>, s: string, base: nat)
  {
    forall k :: 0 <= k < |d| ==>
      && base <= d[k].offset < base + |s|
      && d[k].ch == s[d[k].offset - base]
      && d[k].ch as int > MaxChar(t)
  }

  /** Each diagnostic names a rejected character at its own offset. */
  lemma {:induction false} ErrorsSound(t: TransformType, r: seq<Entry>, s: string, base: nat)
    requires Marks(t, r, s, base)
    ensures Reports(t, Errors(r), s, base)
  {
    if r != [] {
      MarksTail(t, r, s, base);
      ErrorsSound(t, r[1..], s[1..], base + 1);
      var rest := Errors(r[1..]);
      forall k | 0 <= k < |rest|
        ensures base < rest[k].offset < base + |s| && rest[k].ch == s[rest[k].offset - base]
        ensures rest[k].ch as int > MaxChar(t)
      {
        assert base + 1 <= rest[k].offset < base + 1 + |s[1..]|;
        assert s[1..][rest[k].offset - (base + 1)] == s[rest[k].offset - base];
      }
      if r[0].Unsupported? {
        var d := [r[0].diag] + rest;
        assert Errors(r) == d;
        forall k | 1 <= k < |d| ensures d[k] == rest[k - 1] {}
      } else {
        assert Errors(r) == rest;
      }
    }
  }

  /** Every rejected character is named, at its own offset. */
  lemma {:induction false} ErrorsComplete(t: TransformType, r: seq<Entry>, s: string, base: nat, i: nat)
    requires Marks(t, r, s, base)
    requires i < |s| && s[i] as int > MaxChar(t)
    ensures Diagnostic(s[i], base + i) in Errors(r)
  {
    MarksTail(t, r, s, base);
    if i > 0 {
      assert s[1..][i - 1] == s[i];
      ErrorsComplete(t, r[1..], s[1..], base + 1, i - 1);
      if r[0].Unsupported? {
        assert Errors(r) == [r[0].diag] + Errors(r[1..]);
      } else {
        assert Errors(r) == Errors(r[1..]);
      }
    } else {
      assert Errors(r) == [r[0].diag] + Errors(r[1..]);
    }
  }

  /** The offsets of d strictly ascend. */
  predicate Ascending(d: seq<Diagnostic>)
  {
    forall k, l :: 0 <= k < l < |d| ==> d[k].offset < d[l].offset
  }

  /**
   * When every marker of r carries its position counted from `base` as its
   * offset, the diagnostics come out in strictly ascending offset order, all
   * at or above `base`.
   */
  lemma {:induction false} ErrorsAscending(r: seq<Entry>, base: nat)
    requires forall i :: 0 <= i < |r| && r[i].Unsupported? ==> r[i].diag.offset == base + i
    ensures forall k :: 0 <= k < |Errors(r)| ==> base <= Errors(r)[k].offset
    ensures Ascending(Errors(r))
  {
    if r != [] {
      var tail := r[1..];
      forall i | 0 <= i < |tail| && tail[i].Unsupported?
        ensures tail[i].diag.offset == base + 1 + i
      {
        assert tail[i] == r[i + 1];
      }
      ErrorsAscending(tail, base + 1);
      var rest := Errors(tail);
      if r[0].Unsupported? {
        var d := [r[0].diag] + rest;
        assert Errors(r) == d;
        forall k, l | 0 <= k < l < |d| ensures d[k].offset < d[l].offset {
          assert d[l] == rest[l - 1];
          if k > 0 {
            assert d[k] == rest[k - 1];
          }
        }
      } else {
        assert Errors(r) == rest;
      }
    }
  }

  /** The terminator adds no diagnostic: the errors of the array are those of the walk. */
  lemma ErrorsOfTransform(t: TransformType, s: string)
    ensures Errors(Transform(t, s)) == Errors(EncodeFrom(t, s, 0))
  {
    ErrorsAppend(EncodeFrom(t, s, 0), [Unit(0)]);
    assert Errors([Unit(0)]) == [];
  }

  /**
   * The diagnostics of one expansion: exactly the rejected characters, each
   * with its zero-based offset in characters, in ascending offset order.
   */
  function Diagnostics(t: TransformType, s: string): (d: seq<Diagnostic>)
    ensures Reports(t, d, s, 0)
    ensures forall i :: 0 <= i < |s| && s[i] as int > MaxChar(t) ==> Diagnostic(s[i], i) in d
    ensures Ascending(d)
    ensures d == [] <==> forall i :: 0 <= i < |s| ==> s[i] as int <= MaxChar(t)
  {
    ErrorsOfTransform(t, s);
    var w := EncodeFrom(t, s, 0);
    assert Marks(t, w, s, 0);
    ErrorsSound(t, w, s, 0);
    ErrorsAscending(w, 0);
    forall i | 0 <= i < |s| && s[i] as int > MaxChar(t)
      ensures Diagnostic(s[i], i) in Errors(w)
    {
      ErrorsComplete(t, w, s, 0, i);
    }
    Errors(Transform(t, s))
  }

  /** When every entry is a marker, the diagnostics are the markers' contents, one by one. */
  lemma {:induction false} ErrorsOfMarkers(r: seq<Entry>)
    requires forall i :: 0 <= i < |r| ==> r[i].Unsupported?
    ensures Errors(r) == seq(|r|, i requires 0 <= i < |r| => r[i].diag)
  {
    if r != [] {
      ErrorsOfMarkers(r[1..]);
      var rest := seq(|r[1..]|, i requires 0 <= i < |r[1..]| => r[1..][i].diag);
      assert seq(|r|, i requires 0 <= i < |r| => r[i].diag) == [r[0].diag] + rest;
    }
  }

  /** When no character fits, the diagnostics name every character, at offsets 0, 1, 2, ... */
  lemma AllRejected(t: TransformType, s: string)
    requires forall i :: 0 <= i < |s| ==> s[i] as int > MaxChar(t)
    ensures Diagnostics(t, s) == seq(|s|, i requires 0 <= i < |s| => Diagnostic(s[i], i))
    ensures s != [] ==> Encode(t, s) == Failed(Diagnostics(t, s))
  {
    ErrorsOfTransform(t, s);
    var r := EncodeFrom(t, s, 0);
    ErrorsOfMarkers(r);
    assert seq(|r|, i requires 0 <= i < |r| => r[i].diag)
        == seq(|s|, i requires 0 <= i < |s| => Diagnostic(s[i], i));
  }

  /** The values of entries that are all code units. */
  function Units(r: seq<Entry>): (u: seq<int>)
    requires forall i :: 0 <= i < |r| ==> r[i].Unit?
    ensures |u| == |r|
    ensures forall i :: 0 <= i < |r| ==> u[i] == r[i].value
  {
    seq(|r|, i requires 0 <= i < |r| => r[i].value)
  }

  /** The artifact is the null-terminated encoding of s at the width t. */
  predicate EncodesTo(t: TransformType, s: string, a: Artifact)
  {
    && a.width == t
    && |a.units| == |s| + 1
    && a.units[|s|] == 0
    && forall i :: 0 <= i < |s| ==> a.units[i] == AsSigned(t, s[i] as int)
  }

  /**
   * One expansion of the macro: it succeeds exactly when every character fits
   * the width, and then yields the encoded array with its terminator; otherwise
   * it fails with the full, non-empty list of diagnostics.
   */
  function Encode(t: TransformType, s: string): (o: Outcome)
    ensures o.Built? <==> forall i :: 0 <= i < |s| ==> s[i] as int <= MaxChar(t)
    ensures o.Built? ==> EncodesTo(t, s, o.artifact)
    ensures o.Failed? ==> o.diagnostics == Diagnostics(t, s) && o.diagnostics != []
  {
    var r := Transform(t, s);
    var d := Diagnostics(t, s);
    if d == [] then Built(Artifact(t, Units(r))) else Failed(d)
  }

  /**
   * Below the sign limit (0x80 or 0x8000) the signed reinterpretation changes
   * nothing: the literal is the input's code points followed by 0.
   */
  lemma EncodeBelowSignLimit(t: TransformType, s: string)
    requires forall i :: 0 <= i < |s| ==> s[i] as int < Modulus(t) / 2
    ensures Encode(t, s) == Built(Artifact(t, CodePoints(s) + [0]))
  {
    var o := Encode(t, s);
    forall i | 0 <= i < |s| ensures o.artifact.units[i] == s[i] as int {
      AsSignedOfAccepted(t, s[i] as int);
    }
    assert o.artifact.units == CodePoints(s) + [0];
  }

  /** `real_c_string!`: the narrow expansion, typed `*const i8`. */
  function RealCString(s: string): (o: Outcome)
    ensures o.Built? ==> o.artifact.width == CString && |o.artifact.units| == |s| + 1
    ensures s == "" ==> o == Built(Artifact(CString, [0]))
  {
    Encode(CString, s)
  }

  /** `real_c_wstring!`: the wide expansion, typed `*const i16`. */
  function RealCWString(s: string): (o: Outcome)
    ensures o.Built? ==> o.artifact.width == CWString && |o.artifact.units| == |s| + 1
    ensures s == "" ==> o == Built(Artifact(CWString, [0]))
  {
    Encode(CWString, s)
  }

  /**
   * How a C consumer reads the array through its pointer: units up to (not
   * including) the first zero, each read back as unsigned; `None` when there
   * is no zero unit at all.
   */
  function Decode(t: TransformType, units: seq<int>): (r: Option<seq<nat>>)
    requires forall i :: 0 <= i < |units| ==> InSignedRange(t, units[i])
    ensures r.None? <==> 0 !in units
    ensures r.Some? ==>
      && |r.value| < |units| && units[|r.value|] == 0
      && forall i :: 0 <= i < |r.value| ==> units[i] != 0 && r.value[i] == AsUnsigned(t, units[i])
  {
    if units == [] then None
    else if units[0] == 0 then Some([])
    else match Decode(t, units[1..])
      case None => None
      case Some(rest) => Some([AsUnsigned(t, units[0])] + rest)
  }

  /** The code points of a string. */
  function CodePoints(s: string): (p: seq<nat>)
    ensures |p| == |s|
    ensures forall i :: 0 <= i < |s| ==> p[i] == s[i] as int
  {
    seq(|s|, i requires 0 <= i < |s| => s[i] as int)
  }

  /** The part of s before its first NUL character (all of s when it has none). */
  function UpToNul(s: string): (p: string)
    ensures |p| <= |s| && p == s[..|p|]
    ensures '\0' !in p
    ensures |p| < |s| ==> s[|p|] == '\0'
  {
    if s == [] || s[0] == '\0' then [] else [s[0]] + UpToNul(s[1..])
  }

  /**
   * Round trip: reading a built literal back as a C string gives the code
   * points of the input up to its first NUL character, so the whole input
   * when it holds none.
   */
  lemma RoundTrip(t: TransformType, s: string)
    requires Encode(t, s).Built?
    ensures var u := Encode(t, s).artifact.units;
      (forall i :: 0 <= i < |u| ==> InSignedRange(t, u[i]))
      && Decode(t, u) == Some(CodePoints(UpToNul(s)))
    ensures '\0' !in s ==> UpToNul(s) == s
  {
    var a := Encode(t, s).artifact;
    assert EncodesTo(t, s, a);
    DecodeEncoded(t, s, a.units);
    var p := UpToNul(s);
    if '\0' !in s {
      assert |p| == |s|;
    }
  }

  /**
   * The pointwise round trip, which holds for every built literal, embedded
   * NUL characters included: unit i read as unsigned is character i.
   */
  lemma UnitsReadBack(t: TransformType, s: string)
    requires Encode(t, s).Built?
    ensures var u := Encode(t, s).artifact.units;
      forall i :: 0 <= i < |s| ==> InSignedRange(t, u[i]) && AsUnsigned(t, u[i]) == s[i] as int
  {
    var u := Encode(t, s).artifact.units;
    forall i | 0 <= i < |s|
      ensures InSignedRange(t, u[i]) && AsUnsigned(t, u[i]) == s[i] as int
    {
      AsSignedOfAccepted(t, s[i] as int);
    }
  }

  /** The reading half of the round trip, for any units that encode s. */
  lemma DecodeEncoded(t: TransformType, s: string, u: seq<int>)
    requires |u| == |s| + 1 && u[|s|] == 0
    requires forall i :: 0 <= i < |s| ==> s[i] as int <= MaxChar(t) && u[i] == AsSigned(t, s[i] as int)
    ensures forall i :: 0 <= i < |u| ==> InSignedRange(t, u[i])
    ensures Decode(t, u) == Some(CodePoints(UpToNul(s)))
  {
    var p := UpToNul(s);
    forall i | 0 <= i < |s|
      ensures InSignedRange(t, u[i]) && AsUnsigned(t, u[i]) == s[i] as int
      ensures u[i] == 0 <==> s[i] == '\0'
    {
      AsSignedOfAccepted(t, s[i] as int);
      AsSignedZero(t, s[i] as int);
    }
    assert InSignedRange(t, u[|s|]);
    assert u[|p|] == 0;
    forall i | 0 <= i < |p| ensures u[i] != 0 {
      assert p[i] == s[i];
    }
    var r := Decode(t, u);
    assert 0 in u;
    assert |r.value| == |p|;
    assert r.value == CodePoints(p);
  }
}
