/**
 * The documented expansions of `real_c_string!` and `real_c_wstring!` (the
 * doc tests of src/lib.rs), the narrow expansion that must fail, and the
 * edges of the accepted range. The strings are parameters fixed by a
 * `requires`, so that the verifier reasons from the encoder's contracts
 * instead of unfolding its definitions over a literal.
 */
module DocExamples {
  import opened WidthPolicy
  import opened Encoder

  /** An empty literal expands to the terminator alone, at both widths. */
  lemma EmptyLiteral(t: TransformType)
    ensures Encode(t, "") == Built(Artifact(t, [0]))
  {
    var o := Encode(t, "");
    assert |o.artifact.units| == 1;
  }

  /** "Hello world!" gives its twelve ASCII codes and then 0, the same at both widths. */
  lemma HelloWorld(t: TransformType, s: string)
    requires s == "Hello world!"
    ensures Encode(t, s) == Built(Artifact(t,
      [72, 101, 108, 108, 111, 32, 119, 111, 114, 108, 100, 33, 0]))
  {
    var p := CodePoints(s);
    assert p == [72, 101, 108, 108, 111, 32, 119, 111, 114, 108, 100, 33] by {
      assert |p| == |s| && forall i :: 0 <= i < |s| ==> p[i] == s[i] as int;
    }
    assert forall i :: 0 <= i < |s| ==> s[i] as int < 0x80;
    EncodeBelowSignLimit(t, s);
    assert p + [0] == [72, 101, 108, 108, 111, 32, 119, 111, 114, 108, 100, 33, 0];
  }

  /** "Привет world!" in the wide width: each Cyrillic letter keeps its code point. */
  lemma PrivetWorldWide(s: string)
    requires s == "Привет world!"
    ensures Encode(CWString, s) == Built(Artifact(CWString,
      [1055, 1088, 1080, 1074, 1077, 1090, 32, 119, 111, 114, 108, 100, 33, 0]))
  {
    var p := CodePoints(s);
    assert p == [1055, 1088, 1080, 1074, 1077, 1090, 32, 119, 111, 114, 108, 100, 33] by {
      assert |p| == |s| && forall i :: 0 <= i < |s| ==> p[i] == s[i] as int;
    }
    assert forall i :: 0 <= i < |s| ==> s[i] as int < 0x8000;
    EncodeBelowSignLimit(CWString, s);
    assert p + [0] == [1055, 1088, 1080, 1074, 1077, 1090, 32, 119, 111, 114, 108, 100, 33, 0];
  }

  /** "Привет" in the narrow width fails with one diagnostic per letter, offsets 0 to 5. */
  lemma PrivetNarrow(s: string)
    requires s == "Привет"
    ensures Encode(CString, s) == Failed([
      Diagnostic('П', 0), Diagnostic('р', 1), Diagnostic('и', 2),
      Diagnostic('в', 3), Diagnostic('е', 4), Diagnostic('т', 5)])
  {
    var d := seq(|s|, i requires 0 <= i < |s| => Diagnostic(s[i], i));
    assert d == [
      Diagnostic('П', 0), Diagnostic('р', 1), Diagnostic('и', 2),
      Diagnostic('в', 3), Diagnostic('е', 4), Diagnostic('т', 5)];
    assert forall i :: 0 <= i < |s| ==> s[i] as int > MaxChar(CString) by {
      assert forall i :: 0 <= i < |s| ==> s[i] as int > 0xFF;
    }
    AllRejected(CString, s);
  }

  /** A character equal to `max_char` is accepted; as a signed unit it is -1. */
  lemma AcceptsMaxChar(t: TransformType, c: char)
    requires c as int == MaxChar(t)
    ensures Encode(t, [c]) == Built(Artifact(t, [-1, 0]))
  {
    var o := Encode(t, [c]);
    assert o.artifact.units == [-1, 0];
  }

  /** A character one above `max_char` is rejected, reported at offset 0. */
  lemma RejectsAboveMaxChar(t: TransformType, c: char)
    requires c as int == MaxChar(t) + 1
    ensures Encode(t, [c]) == Failed([Diagnostic(c, 0)])
  {
    assert Transform(t, [c]) == [Unsupported(Diagnostic(c, 0)), Unit(0)];
  }

  /** The sign limit (0x80 or 0x8000) is the smallest value that turns negative. */
  lemma SignLimit(t: TransformType, c: char)
    requires c as int == Modulus(t) / 2
    ensures Encode(t, [c]) == Built(Artifact(t, [-(Modulus(t) / 2), 0]))
  {
    var o := Encode(t, [c]);
    assert o.artifact.units == [-(Modulus(t) / 2), 0];
  }
}
