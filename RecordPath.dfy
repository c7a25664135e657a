/** The conversion target name: the recording path with a final `.h264`
    replaced by `.mp4` (the `strrchr` / `strcmp` / `strcpy` sequence). */
module RecordPath {
  import opened Common

  predicate HasSuffix(s: string, x: string)
  {
    |x| <= |s| && s[|s| - |x|..] == x
  }

  /** The offset of the last '.', as `strrchr(s, '.')`. */
  function LastDot(s: string): (r: Option<nat>)
    ensures r.Some? ==> r.value < |s| && s[r.value] == '.'
    ensures r.Some? ==> forall j :: r.value < j < |s| ==> s[j] != '.'
    ensures r.None? ==> forall j :: 0 <= j < |s| ==> s[j] != '.'
  {
    if s == [] then None
    else if s[|s| - 1] == '.' then Some(|s| - 1)
    else LastDot(s[..|s| - 1])
  }

  /** The `.mp4` name, when the text from the last '.' on is exactly `.h264`;
      otherwise there is no conversion. */
  function Mp4Path(p: string): Option<string>
  {
    match LastDot(p)
    case None => None
    case Some(i) => if p[i..] == ".h264" then Some(p[..i] + ".mp4") else None
  }

  /** A conversion name exists exactly when the path ends in `.h264`. */
  lemma Mp4PathExactlyForH264(p: string)
    ensures Mp4Path(p).Some? <==> HasSuffix(p, ".h264")
  {
    var d := LastDot(p);
    if HasSuffix(p, ".h264") {
      var i := |p| - 5;
      assert p[i] == '.';
      assert d.Some? && d.value >= i;
      assert forall j :: i < j < |p| ==> p[j] != '.' by {
        assert p[i..] == ".h264";
        forall j | i < j < |p| ensures p[j] != '.' {
          assert p[j] == p[i..][j - i];
        }
      }
      assert d.value == i;
    } else if d.Some? {
      assert p[d.value..] != ".h264" by {
        assert !HasSuffix(p, ".h264");
      }
    }
  }

  /** Replacing the extension and undoing it give back the recording path. */
  lemma Mp4PathRewrite(base: string)
    ensures Mp4Path(base + ".h264") == Some(base + ".mp4")
  {
    var p := base + ".h264";
    assert HasSuffix(p, ".h264") by { assert p[|p| - 5..] == ".h264"; }
    Mp4PathExactlyForH264(p);
    var i := LastDot(p).value;
    assert p[i..] == ".h264";
    assert i == |base|;
    assert p[..i] == base;
  }

  lemma Mp4PathInverse(p: string)
    requires Mp4Path(p).Some?
    ensures var q := Mp4Path(p).value;
      HasSuffix(q, ".mp4") && p == q[..|q| - 4] + ".h264"
  {
    var i := LastDot(p).value;
    var q := Mp4Path(p).value;
    assert q == p[..i] + ".mp4";
    assert q[..|q| - 4] == p[..i];
    assert q[|q| - 4..] == ".mp4";
    assert p == p[..i] + p[i..];
  }
}
