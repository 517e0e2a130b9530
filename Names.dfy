/**
 * File-name rewrites of both scripts: completing a missing `.mkv` / `.m4v`
 * suffix (mkvert.rb) and replacing the last extension with `.m4v`
 * (`gsub(/\.[^.]*$/, '.m4v')` in mkvert.rb's quick_encode and in mp4maker.rb's
 * batch loop). Names are assumed to hold no newline.
 */
module Names {
  import opened Wrappers
  import opened Text

  const MkvSuffix := ".mkv"
  const M4vSuffix := ".m4v"

  /** `name.gsub(/\.mkv$/, '')`: the name without one trailing suffix. */
  function StripSuffix(name: string, suffix: string): (base: string)
    ensures EndsWith(name, suffix) ==> base + suffix == name
    ensures !EndsWith(name, suffix) ==> base == name
  {
    if EndsWith(name, suffix) then name[..|name| - |suffix|] else name
  }

  /** `name += suffix if StripSuffix(name, suffix) == name`: complete a missing suffix. */
  function Normalise(name: string, suffix: string): (r: string)
    ensures EndsWith(r, suffix)
    ensures r == StripSuffix(name, suffix) + suffix
    ensures EndsWith(name, suffix) ==> r == name
  {
    if StripSuffix(name, suffix) == name then name + suffix else name
  }

  lemma NormaliseIdempotent(name: string, suffix: string)
    ensures Normalise(Normalise(name, suffix), suffix) == Normalise(name, suffix)
  {
  }

  /** The position of the last '.' in `s`. */
  function LastDot(s: string): (r: Option<nat>)
    ensures r.Some? ==> r.value < |s|
    decreases |s|
  {
    if |s| == 0 then None
    else if s[|s| - 1] == '.' then Some(|s| - 1)
    else LastDot(s[..|s| - 1])
  }

  /** LastDot finds a '.' exactly when there is one, and no '.' follows the one it finds. */
  lemma {:induction false} LastDotSpec(s: string)
    ensures LastDot(s).None? <==> '.' !in s
    ensures LastDot(s).Some? ==> var i := LastDot(s).value; i < |s| && s[i] == '.' && '.' !in s[i + 1..]
    decreases |s|
  {
    if |s| > 0 && s[|s| - 1] != '.' {
      var init := s[..|s| - 1];
      LastDotSpec(init);
      assert s == init + [s[|s| - 1]];
      if LastDot(init).Some? {
        var i := LastDot(init).value;
        assert s[i + 1..] == init[i + 1..] + [s[|s| - 1]];
      }
    }
  }

  /** `path.gsub(/\.[^.]*$/, '.m4v')`. */
  function SwapExtension(path: string): string
  {
    match LastDot(path)
    case None => path
    case Some(i) => path[..i] + M4vSuffix
  }

  /**
   * A name without '.' is left alone; otherwise the result is the name up to
   * its last '.', then `.m4v`.
   */
  lemma SwapExtensionSpec(path: string)
    ensures '.' !in path ==> SwapExtension(path) == path
    ensures '.' in path ==> EndsWith(SwapExtension(path), M4vSuffix)
    ensures '.' in path ==>
      var r := SwapExtension(path);
      var stem := r[..|r| - |M4vSuffix|];
      && |stem| < |path| && path[..|stem|] == stem
      && path[|stem|] == '.' && '.' !in path[|stem| + 1..]
  {
    LastDotSpec(path);
    if '.' in path {
      var i := LastDot(path).value;
      var r := SwapExtension(path);
      assert r == path[..i] + M4vSuffix;
      assert r[..|r| - |M4vSuffix|] == path[..i];
    }
  }

  /** When `s` has a '.' at `i` and none after it, `i` is where its last '.' is. */
  lemma LastDotAt(s: string, i: nat)
    requires i < |s| && s[i] == '.' && '.' !in s[i + 1..]
    ensures LastDot(s) == Some(i)
  {
    LastDotSpec(s);
  }

  /**
   * quick_encode's output for a normalised source name is the base name with
   * `.m4v`, which is the target name the script derives itself.
   */
  lemma SwapExtensionOfNormalised(name: string)
    ensures SwapExtension(Normalise(name, MkvSuffix)) == StripSuffix(name, MkvSuffix) + M4vSuffix
  {
    var base := StripSuffix(name, MkvSuffix);
    var s := Normalise(name, MkvSuffix);
    assert s == base + MkvSuffix;
    assert s[|base| + 1..] == "mkv";
    LastDotAt(s, |base|);
    assert s[..|base|] == base;
  }

  /** Swapping the extension a second time changes nothing. */
  lemma SwapExtensionIdempotent(path: string)
    ensures SwapExtension(SwapExtension(path)) == SwapExtension(path)
  {
    var r := SwapExtension(path);
    SwapExtensionSpec(path);
    if '.' in path {
      var stem := r[..|r| - 4];
      assert r == stem + M4vSuffix;
      assert r[|stem| + 1..] == "m4v";
      LastDotAt(r, |stem|);
    }
  }

  /** Only the final extension is replaced: `movie.tar.mkv` becomes `movie.tar.m4v`. */
  lemma SwapExtensionKeepsInnerDots()
    ensures SwapExtension("movie.tar.mkv") == "movie.tar.m4v"
    ensures SwapExtension("movie") == "movie"
  {
    SwapExtensionOfNormalised("movie.tar.mkv");
    assert StripSuffix("movie.tar.mkv", MkvSuffix) == "movie.tar";
    SwapExtensionSpec("movie");
  }
}
