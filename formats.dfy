/** The FormatChecker of the location server: compact ISO 6709 positions and
    POSIX times. */
module Formats {
  import opened Codec
  import opened Numbers

  /** `is_iso_6709`: splitting at the signs gives four fields, and the second
      and the fourth are numbers. */
  predicate IsIso6709(v: string) {
    var parts := LocationToList(v);
    |parts| == 4 && IsFloat(parts[1]) && IsFloat(parts[3])
  }

  /** `is_posix_time`. */
  predicate IsPosixTime(v: string) {
    IsFloat(v)
  }

  /** For a message field (whitespace-free), the check means: sign, number,
      sign, number, and nothing else. Two numbers cannot stand next to each
      other, so fields 0 and 2 are the signs, and the four fields spell the
      position again. */
  lemma IsoShape(v: string)
    requires NoSpace(v)
    requires IsIso6709(v)
    ensures var p := LocationToList(v);
      && |p| == 4
      && IsSignToken(p[0]) && IsSignToken(p[2])
      && IsFloat(p[1]) && IsFloat(p[3])
      && IsRun(p[1]) && IsRun(p[3])
      && p[0] + p[1] + p[2] + p[3] == v
  {
    var p := LocationToList(v);
    LocationToListSplitsAtSigns(v);
    SignTokensShape(v);
    FloatIsNotSign(p[1]);
    FloatIsNotSign(p[3]);
    FourFields(p);
  }

  lemma FloatIsNotSign(s: string)
    requires IsFloat(s)
    ensures !IsSignToken(s)
  {
    if IsSignToken(s) {
      SignIsNotFloat(s);
    }
  }

  /** Four fields, each a sign or a run, no run directly after a run, fields
      1 and 3 not signs: then fields 0 and 2 are signs. */
  lemma FourFields(p: seq<string>)
    requires |p| == 4
    requires forall i :: 0 <= i < |p| ==> IsSignToken(p[i]) || IsRun(p[i])
    requires forall i :: 0 <= i < |p| - 1 && IsRun(p[i]) ==> IsSignToken(p[i + 1])
    requires !IsSignToken(p[1]) && !IsSignToken(p[3])
    ensures IsSignToken(p[0]) && IsSignToken(p[2]) && IsRun(p[1]) && IsRun(p[3])
    ensures Concat(p) == p[0] + p[1] + p[2] + p[3]
  {
    assert IsRun(p[1]) && IsRun(p[3]);
    assert IsSignToken(p[2]);
    assert Concat(p[3..]) == p[3] by {
      assert p[3..][1..] == [];
    }
    assert Concat(p[2..]) == p[2] + p[3] by {
      assert p[2..][1..] == p[3..];
    }
    assert Concat(p[1..]) == p[1] + (p[2] + p[3]) by {
      assert p[1..][1..] == p[2..];
    }
  }
}
