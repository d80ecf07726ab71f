/** The removal of `.exe` and `.exe.exe` from a file name, in any spelling (src/custom_server.rs). */
module Extensions {
  import opened Options
  import opened Text
  import opened CustomServers

  predicate IsExe(ext: string) {
    ext == "" || SameIgnoringCase(ext, ".exe") || SameIgnoringCase(ext, ".exe.exe")
  }

  predicate ExeChar(c: char) {
    LowerAscii(c) == '.' || LowerAscii(c) == 'e' || LowerAscii(c) == 'x'
  }

  lemma ExeChars(s: string, i: nat)
    requires i < |s| && (SameIgnoringCase(s, ".exe") || SameIgnoringCase(s, ".exe.exe"))
    ensures ExeChar(s[i])
  {
    assert |s| == 4 ==> LowerAscii(s[i]) == LowerAscii(".exe"[i]);
    assert |s| == 8 ==> LowerAscii(s[i]) == LowerAscii(".exe.exe"[i]);
  }

  lemma EndChars(s: string, k: nat, i: nat)
    requires (k == 4 && EndsWith(s, ".exe")) || (k == 8 && EndsWith(s, ".exe.exe"))
    requires |s| - k <= i < |s|
    ensures ExeChar(s[i])
  {
    ExeChars(s[|s| - k..], i - (|s| - k));
  }

  lemma HalvesOfDouble(x: string, y: string)
    requires |x| == 4 && |y| == 4
    ensures SameIgnoringCase(x + y, ".exe.exe") <==> SameIgnoringCase(x, ".exe") && SameIgnoringCase(y, ".exe")
  {
    var t := x + y;
    forall i | 0 <= i < 4
      ensures t[i] == x[i] && t[i + 4] == y[i] && ".exe.exe"[i] == ".exe"[i] && ".exe.exe"[i + 4] == ".exe"[i]
    {
    }
    if SameIgnoringCase(t, ".exe.exe") {
      forall i | 0 <= i < 4
        ensures LowerAscii(x[i]) == LowerAscii(".exe"[i]) && LowerAscii(y[i]) == LowerAscii(".exe"[i])
      {
        assert LowerAscii(t[i]) == LowerAscii(".exe.exe"[i]) && LowerAscii(t[i + 4]) == LowerAscii(".exe.exe"[i + 4]);
      }
    }
    if SameIgnoringCase(x, ".exe") && SameIgnoringCase(y, ".exe") {
      forall i | 0 <= i < 8 ensures LowerAscii(t[i]) == LowerAscii(".exe.exe"[i]) {
        if i >= 4 {
          assert t[i] == y[i - 4] && ".exe.exe"[i] == ".exe"[i - 4];
        }
      }
    }
  }

  /** A name ends twice in `.exe` exactly if it ends so and does so again without its last four characters. */
  lemma DoubleExe(s: string)
    requires |s| >= 4
    ensures EndsWith(s, ".exe.exe") <==> EndsWith(s, ".exe") && EndsWith(s[..|s| - 4], ".exe")
  {
    if |s| >= 8 {
      var x, y := s[|s| - 8..|s| - 4], s[|s| - 4..];
      HalvesOfDouble(x, y);
      assert s[|s| - 8..] == x + y;
      assert s[..|s| - 4][|s| - 8..] == x;
    }
  }

  /** What is removed beyond the extension: nothing, or another extension. */
  lemma StripCut(s: string, ext: string) returns (k: nat)
    requires IsExe(ext)
    ensures k <= |s| && (k == 0 || k >= 4) && StripExe(s + ext) == s[..|s| - k]
    ensures forall i :: |s| - k <= i < |s| ==> ExeChar(s[i])
    ensures k > 0 <==> EndsWith(s, ".exe") && |ext| != 8
  {
    var t := s + ext;
    if |ext| == 8 {
      assert t[|t| - 8..] == ext && s[..|s| - 0] == s;
      k := 0;
    } else if |ext| == 4 {
      assert t[|t| - 4..] == ext && t[..|t| - 4] == s;
      DoubleExe(t);
      k := if EndsWith(s, ".exe") then 4 else 0;
    } else {
      assert t == s;
      k := |s| - |StripExe(s)|;
      if |s| >= 4 {
        DoubleExe(s);
      }
    }
    forall i | |s| - k <= i < |s| ensures ExeChar(s[i]) {
      EndChars(s, k, i);
    }
  }

  lemma NameIs(reader: Reader, s: string, stem: string, r: Option<CustomServer>)
    requires StripExe(s) == stem && ParseStem(Trimmed(reader), stem) == r
    ensures ParseName(reader, s) == r
  {
  }
}
