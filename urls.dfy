/**
 * `normalize_url` (sqli_crawler/utils.py:8-9): defaults a missing scheme to
 * `https://` and replaces any run of trailing slashes by a single `/`.
 */
module Urls {
  import opened Strings

  const SCHEME_SEPARATOR: string := "://"
  const DEFAULT_SCHEME: string := "https://"

  predicate IsSlash(c: char) {
    c == '/'
  }

  /** `url.rstrip("/")`. */
  function TrimSlashes(url: string): string {
    RStripBy(url, IsSlash)
  }

  /** A string of `n` slashes. */
  function Slashes(n: nat): (r: string)
    ensures |r| == n && forall i | 0 <= i < n :: r[i] == '/'
  {
    seq(n, i => '/')
  }

  function NormalizeUrl(url: string): (r: string)
    ensures |r| > 0 && r[|r| - 1] == '/'
  {
    (if Contains(url, SCHEME_SEPARATOR) then "" else DEFAULT_SCHEME) + TrimSlashes(url) + "/"
  }

  /**
   * The result is a scheme prefix (present exactly when the input has no `://`),
   * then the input without its trailing slashes, then one `/`.
   */
  lemma NormalizeShape(url: string)
    ensures var core := TrimSlashes(url);
      && url == core + Slashes(|url| - |core|)
      && (core == [] || core[|core| - 1] != '/')
      && NormalizeUrl(url) == (if Contains(url, "://") then "" else "https://") + core + "/"
  {
    var core := TrimSlashes(url);
    assert url == core + url[|core|..];
    assert url[|core|..] == Slashes(|url| - |core|);
  }

  /** An input with a character other than `/` normalises to a string ending in exactly one `/`. */
  lemma NormalizeSingleTrailingSlash(url: string)
    requires exists i | 0 <= i < |url| :: url[i] != '/'
    ensures var r := NormalizeUrl(url); |r| >= 2 && r[|r| - 2] != '/'
  {
    var core := TrimSlashes(url);
    var i :| 0 <= i < |url| && url[i] != '/';
    assert i < |core|;
    var r := NormalizeUrl(url);
    assert r[|r| - 2] == core[|core| - 1];
  }

  /** Appending slashes only creates a `://` when what is left after trimming ends in `:`. */
  lemma SlashesAddNoSeparator(core: string, n: nat)
    requires core == [] || (core[|core| - 1] != '/' && core[|core| - 1] != ':')
    ensures Contains(core + Slashes(n), "://") <==> Contains(core, "://")
  {
    var s := core + Slashes(n);
    assert forall j | 0 <= j < |core| :: s[j] == core[j];
    assert forall j | |core| <= j < |s| :: s[j] == '/';
    if Contains(s, "://") {
      var i :| 0 <= i <= |s| - 3 && OccursAt(s, "://", i);
      SeparatorChars(s, i);
      assert i + 2 < |core|;
      SeparatorFromChars(core, i);
    }
    if Contains(core, "://") {
      var i :| 0 <= i <= |core| - 3 && OccursAt(core, "://", i);
      SeparatorChars(core, i);
      SeparatorFromChars(s, i);
    }
  }

  /** The three characters of a `://` found at `i`. */
  lemma SeparatorChars(s: string, i: int)
    requires OccursAt(s, "://", i)
    ensures i + 3 <= |s| && s[i] == ':' && s[i + 1] == '/' && s[i + 2] == '/'
  {
    assert s[i..i + 3][0] == s[i] && s[i..i + 3][1] == s[i + 1] && s[i..i + 3][2] == s[i + 2];
  }

  /** Three characters `:`, `/`, `/` from `i` on are a `://`. */
  lemma SeparatorFromChars(s: string, i: int)
    requires 0 <= i && i + 3 <= |s| && s[i] == ':' && s[i + 1] == '/' && s[i + 2] == '/'
    ensures OccursAt(s, "://", i) && Contains(s, "://")
  {
    assert s[i..i + 3] == "://";
    assert OccursAt(s, "://", i);
  }

  /**
   * Inputs that differ only in their trailing slashes normalise alike, unless
   * the trimmed input ends in `:` and only one of them has a `://` that the
   * slashes complete.
   */
  lemma {:induction false} NormalizeIgnoresTrailingSlashes(url: string, n: nat)
    requires Contains(url, "://") || TrimSlashes(url) == [] || TrimSlashes(url)[|TrimSlashes(url)| - 1] != ':'
    ensures NormalizeUrl(url + Slashes(n)) == NormalizeUrl(url)
  {
    var core := TrimSlashes(url);
    NormalizeShape(url);
    var m := |url| - |core|;
    var longer := url + Slashes(n);
    assert longer == core + Slashes(m + n);
    TrimSlashesOfPadded(core, m + n);
    TrimSlashesOfPadded(core, m);
    if Contains(url, "://") {
      ContainsExtends(url, Slashes(n), "://");
    } else {
      SlashesAddNoSeparator(core, m + n);
      SlashesAddNoSeparator(core, m);
    }
  }

  lemma TrimSlashesOfPadded(core: string, n: nat)
    requires core == [] || core[|core| - 1] != '/'
    ensures TrimSlashes(core + Slashes(n)) == core
    decreases n
  {
    if n > 0 {
      var s := core + Slashes(n);
      assert s[..|s| - 1] == core + Slashes(n - 1);
      TrimSlashesOfPadded(core, n - 1);
    } else {
      assert core + Slashes(0) == core;
    }
  }

  /** A string with no `:` early enough to start a `://` does not contain one. */
  lemma NoSeparatorWithoutColon(s: string)
    requires forall i | 0 <= i < |s| - 2 :: s[i] != ':'
    ensures !Contains(s, "://")
  {
    forall i | 0 <= i <= |s| - 3
      ensures !OccursAt(s, "://", i)
    {
      assert s[i..i + 3][0] == s[i];
    }
  }

  lemma ContainsExtends(s: string, t: string, needle: string)
    requires Contains(s, needle)
    ensures Contains(s + t, needle)
  {
    var i :| 0 <= i <= |s| - |needle| && OccursAt(s, needle, i);
    assert (s + t)[i..i + |needle|] == s[i..i + |needle|];
    assert OccursAt(s + t, needle, i);
  }

  /**
   * Normalising twice changes nothing, provided the input has a character
   * other than `/` and any `://` in it survives the trimming of trailing slashes.
   */
  lemma {:induction false} NormalizeIdempotent(url: string)
    requires exists i | 0 <= i < |url| :: url[i] != '/'
    requires Contains(url, "://") ==> Contains(TrimSlashes(url), "://")
    ensures NormalizeUrl(NormalizeUrl(url)) == NormalizeUrl(url)
  {
    var core := TrimSlashes(url);
    var r := NormalizeUrl(url);
    NormalizeShape(url);
    NormalizeSingleTrailingSlash(url);
    var prefix := if Contains(url, "://") then "" else "https://";
    assert r == (prefix + core) + Slashes(1);
    TrimSlashesOfPadded(prefix + core, 1);
    if Contains(url, "://") {
      ContainsExtends(core, "/", "://");
      assert prefix + core == core;
    } else {
      assert OccursAt(r, "://", 5);
    }
  }

  /** `"/"` becomes `"https:///"`, which normalises again to `"https:/"`. */
  lemma {:induction false} SlashOnlyIsNotIdempotent()
    ensures NormalizeUrl("/") == "https:///"
    ensures NormalizeUrl("https:///") == "https:/"
  {
    assert !Contains("/", "://");
    assert TrimSlashes("/") == [];
    assert OccursAt("https:///", "://", 5);
    TrimSlashesOfPadded("https:", 3);
    assert "https:" + Slashes(3) == "https:///";
  }

  /** `"abc://"` becomes `"abc:/"`, which has lost its `://` and gains `https://`. */
  lemma {:induction false} TrimmedSeparatorIsNotIdempotent()
    ensures NormalizeUrl("abc://") == "abc:/"
    ensures NormalizeUrl("abc:/") == "https://abc:/"
  {
    assert OccursAt("abc://", "://", 3);
    TrimSlashesOfPadded("abc:", 2);
    assert "abc:" + Slashes(2) == "abc://";
    TrimSlashesOfPadded("abc:", 1);
    assert "abc:" + Slashes(1) == "abc:/";
    NoSeparatorWithoutColon("abc:/");
  }

  /** `"abc:"` and `"abc://"` differ only in trailing slashes yet normalise differently. */
  lemma {:induction false} TrailingSlashesCanMatter()
    ensures NormalizeUrl("abc:") == "https://abc:/"
    ensures NormalizeUrl("abc://") == "abc:/"
  {
    TrimmedSeparatorIsNotIdempotent();
    TrimSlashesOfPadded("abc:", 0);
    assert "abc:" + Slashes(0) == "abc:";
    NoSeparatorWithoutColon("abc:");
  }

  /** For example, `"example.com"` becomes `"https://example.com/"`. */
  lemma {:induction false} NormalizeBareHost()
    ensures NormalizeUrl("example.com") == "https://example.com/"
  {
    TrimSlashesOfPadded("example.com", 0);
    assert "example.com" + Slashes(0) == "example.com";
    NoSeparatorWithoutColon("example.com");
  }
}
