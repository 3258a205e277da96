/**
 * `allowed_file`: the upload route's filename validator. A name passes when it
 * has a '.', and the text after its last '.', lower-cased, is one of the
 * configured image extensions.
 */
module Upload {
  import opened Wrappers

  /** `ALLOWED_EXTENSIONS`. */
  const AllowedExtensions: set<string> := {"png", "jpg", "jpeg", "tif", "tiff", "bmp"}

  /** `str.lower` on the characters that lower-case to ASCII letters: A..Z. */
  function LowerChar(c: char): (r: char)
    ensures 'A' <= c <= 'Z' ==> r as int == c as int + 32
    ensures !('A' <= c <= 'Z') ==> r == c
  {
    if 'A' <= c <= 'Z' then (c as int + 32) as char else c
  }

  function Lower(s: string): (r: string)
    ensures |r| == |s|
    ensures forall i :: 0 <= i < |s| ==> r[i] == LowerChar(s[i])
  {
    seq(|s|, i requires 0 <= i < |s| => LowerChar(s[i]))
  }

  /** The position of the last '.' in the first `n` characters of `s`, if any. */
  function LastDot(s: string, n: nat): (r: Option<nat>)
    requires n <= |s|
    ensures r.Some? ==> r.value < n && s[r.value] == '.' && forall j :: r.value < j < n ==> s[j] != '.'
    ensures r.None? ==> forall j :: 0 <= j < n ==> s[j] != '.'
  {
    if n == 0 then None
    else if s[n - 1] == '.' then Some(n - 1)
    else LastDot(s, n - 1)
  }

  /** `filename.rsplit('.', 1)[1]`: what follows the last '.'; only asked for when there is one. */
  function Extension(filename: string): (r: string)
    requires '.' in filename
    ensures '.' !in r
    ensures |r| < |filename| && r == filename[|filename| - |r|..]
    ensures filename[|filename| - |r| - 1] == '.'
  {
    var d := LastDot(filename, |filename|);
    if d.Some? then filename[d.value + 1..] else ""
  }

  /** `allowed_file`. */
  function AllowedFile(filename: string): (r: bool)
    ensures r ==> '.' in filename
    ensures '.' !in filename ==> !r
    ensures '.' in filename ==> (r <==> Lower(Extension(filename)) in AllowedExtensions)
  {
    '.' in filename && Lower(Extension(filename)) in AllowedExtensions
  }

  /**
   * An independent reading of the rule: a name passes exactly when it splits
   * as stem + "." + ext, with no '.' in ext, and ext lower-cased is allowed.
   */
  lemma AllowedFileSplit(filename: string)
    ensures AllowedFile(filename) <==>
      exists k :: 0 <= k < |filename| && filename[k] == '.' && '.' !in filename[k + 1..] &&
        Lower(filename[k + 1..]) in AllowedExtensions
  {
    if AllowedFile(filename) {
      var ext := Extension(filename);
      var k := |filename| - |ext| - 1;
      assert filename[k + 1..] == ext;
    }
    if exists k :: 0 <= k < |filename| && filename[k] == '.' && '.' !in filename[k + 1..] &&
        Lower(filename[k + 1..]) in AllowedExtensions {
      var k :| 0 <= k < |filename| && filename[k] == '.' && '.' !in filename[k + 1..] &&
        Lower(filename[k + 1..]) in AllowedExtensions;
      SuffixAfterLastDot(filename, k);
    }
  }

  /** A '.' with none after it among the first `n` characters is the last one there. */
  lemma {:induction false} LastDotIs(s: string, n: nat, k: nat)
    requires k < n <= |s| && s[k] == '.'
    requires forall j :: k < j < n ==> s[j] != '.'
    ensures LastDot(s, n) == Some(k)
    decreases n
  {
    if n - 1 != k {
      LastDotIs(s, n - 1, k);
    }
  }

  /** So what follows such a '.' is the extension. */
  lemma SuffixAfterLastDot(filename: string, k: nat)
    requires k < |filename| && filename[k] == '.' && '.' !in filename[k + 1..]
    ensures Extension(filename) == filename[k + 1..]
  {
    forall j | k < j < |filename| ensures filename[j] != '.' {
      assert filename[k + 1..][j - k - 1] == filename[j];
    }
    LastDotIs(filename, |filename|, k);
  }

  /** Lower-casing commutes with taking a suffix. */
  lemma LowerSuffix(s: string, k: nat)
    requires k <= |s|
    ensures Lower(s[k..]) == Lower(s)[k..]
  {
    assert |Lower(s[k..])| == |Lower(s)[k..]|;
    forall j | 0 <= j < |s| - k ensures Lower(s[k..])[j] == Lower(s)[k..][j] {
      assert s[k..][j] == s[k + j];
    }
  }

  /** Only the final extension counts: any stem, dots included, in front of ".ext". */
  lemma FinalExtension(stem: string, ext: string)
    requires '.' !in ext
    ensures AllowedFile(stem + "." + ext) <==> Lower(ext) in AllowedExtensions
  {
    var f := stem + "." + ext;
    assert f[|stem|] == '.';
    assert f[|stem| + 1..] == ext;
    SuffixAfterLastDot(f, |stem|);
  }

  /** The test does not see ASCII case: names equal up to case pass or fail together. */
  lemma CaseInsensitive(f: string, g: string)
    requires Lower(f) == Lower(g)
    ensures AllowedFile(f) <==> AllowedFile(g)
  {
    DotsAgree(f, g);
    if '.' in f {
      var k := |f| - |Extension(f)| - 1;
      SameLastDot(f, g, k);
      LowerSuffix(f, k + 1);
      LowerSuffix(g, k + 1);
    }
  }

  /** Lower-casing neither makes nor removes a '.'. */
  lemma DotsAgree(f: string, g: string)
    requires Lower(f) == Lower(g)
    ensures |f| == |g|
    ensures forall i :: 0 <= i < |f| ==> (f[i] == '.' <==> g[i] == '.')
    ensures '.' in f <==> '.' in g
  {
    assert |f| == |Lower(f)| == |g|;
    forall i | 0 <= i < |f| ensures f[i] == '.' <==> g[i] == '.' {
      assert LowerChar(f[i]) == Lower(f)[i] == Lower(g)[i] == LowerChar(g[i]);
    }
  }

  /** Names with the same dots have their last '.' at the same place. */
  lemma SameLastDot(f: string, g: string, k: nat)
    requires |f| == |g| && forall i :: 0 <= i < |f| ==> (f[i] == '.' <==> g[i] == '.')
    requires '.' in f && k == |f| - |Extension(f)| - 1
    ensures Extension(g) == g[k + 1..]
  {
    var ext := Extension(f);
    assert f[k + 1..] == ext;
    forall j | k + 1 <= j < |g| ensures g[j] != '.' {
      assert f[j] == ext[j - k - 1];
    }
    assert '.' !in g[k + 1..];
    SuffixAfterLastDot(g, k);
  }

  /** Upper-case letters pass. */
  lemma UpperCaseExample()
    ensures AllowedFile("SCAN.PNG")
  {
    var f := "SCAN.PNG";
    assert f[4] == '.' && f[5..] == "PNG";
    SuffixAfterLastDot(f, 4);
    LowerPng();
  }

  /** Only the final extension of a double extension counts. */
  lemma ExeLastExample()
    ensures !AllowedFile("a.png.exe")
  {
    var f := "a.png.exe";
    assert f[5] == '.' && f[6..] == "exe";
    SuffixAfterLastDot(f, 5);
    assert Lower("exe")[0] == 'e' && Lower("exe")[1] == 'x';
  }

  lemma PngLastExample()
    ensures AllowedFile("a.exe.png")
  {
    var f := "a.exe.png";
    assert f[5] == '.' && f[6..] == "png";
    SuffixAfterLastDot(f, 5);
    LowerPng();
  }

  lemma LowerPng()
    ensures Lower("png") == "png" && Lower("PNG") == "png"
  {
    assert Lower("png")[0] == 'p' && Lower("png")[1] == 'n' && Lower("png")[2] == 'g';
    assert Lower("PNG")[0] == 'p' && Lower("PNG")[1] == 'n' && Lower("PNG")[2] == 'g';
  }

  /** A trailing dot leaves an empty extension. */
  lemma TrailingDotExample()
    ensures !AllowedFile("scan.")
  {
    var f := "scan.";
    assert f[4] == '.' && f[5..] == "";
    SuffixAfterLastDot(f, 4);
  }

  /** An empty stem is fine. */
  lemma BareExtensionExample()
    ensures AllowedFile(".png")
  {
    var f := ".png";
    assert f[0] == '.' && f[1..] == "png";
    SuffixAfterLastDot(f, 0);
    LowerPng();
  }

  /** A name without a dot fails. */
  lemma NoDotExample()
    ensures !AllowedFile("scan")
  {
    assert "scan"[0] != '.' && "scan"[1] != '.' && "scan"[2] != '.' && "scan"[3] != '.';
  }
}
