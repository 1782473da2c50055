/**
 * The upload validator: which client file names the service accepts.
 * `allowed_file` splits the name once at its last '.', lower-cases the part
 * after it and looks that up in a fixed set of extensions.
 */
module Uploads {
  import opened Wrappers

  /** The extensions an upload may carry, all in lower case. */
  const ALLOWED_EXTENSIONS: set<string> := {"png", "jpg", "jpeg", "webp", "bmp"}

  /** Python's `str.lower` on one character, restricted to ASCII letters. */
  function LowerChar(c: char): char
  {
    if 'A' <= c <= 'Z' then (c as int - 'A' as int + 'a' as int) as char else c
  }

  /** `str.lower`, character by character. */
  function Lower(s: string): (r: string)
    ensures |r| == |s|
  {
    seq(|s|, i requires 0 <= i < |s| => LowerChar(s[i]))
  }

  /** Index of the last occurrence of `c` in `s`, as `str.rfind` finds it. */
  function LastIndexOf(s: string, c: char): (r: Option<nat>)
    ensures r.None? <==> c !in s
    ensures r.Some? ==> r.value < |s| && s[r.value] == c && c !in s[r.value + 1..]
  {
    if |s| == 0 then None
    else if s[|s| - 1] == c then Some(|s| - 1)
    else
      assert s == s[..|s| - 1] + [s[|s| - 1]];
      LastIndexOf(s[..|s| - 1], c)
  }

  /**
   * `s.rsplit(sep, 1)`: the whole string when `sep` does not occur, else the
   * text before and the text after the last `sep`.
   */
  function RSplitOnce(s: string, sep: char): (parts: seq<string>)
    ensures |parts| == if sep in s then 2 else 1
    ensures sep !in s ==> parts == [s]
    ensures sep in s ==> s == parts[0] + [sep] + parts[1] && sep !in parts[1]
  {
    match LastIndexOf(s, sep)
    case None => [s]
    case Some(i) =>
      assert s == s[..i] + [sep] + s[i + 1..];
      [s[..i], s[i + 1..]]
  }

  /** `filename.rsplit('.', 1)[1].lower()`; the index raises when there is no '.'. */
  function Extension(filename: string): (ext: string)
    requires '.' in filename
    ensures |ext| < |filename| && '.' !in ext
  {
    LowerKeepsDots(RSplitOnce(filename, '.')[1]);
    Lower(RSplitOnce(filename, '.')[1])
  }

  /** `allowed_file`: a '.' is present and the lowered text after the last one is allowed. */
  predicate AllowedFile(filename: string)
    ensures AllowedFile(filename) ==> '.' in filename && 3 <= |RSplitOnce(filename, '.')[1]| <= 4
  {
    '.' in filename && Extension(filename) in ALLOWED_EXTENSIONS
  }

  /** Every allowed extension is already lower case and holds no '.' or '/'. */
  lemma AllowedExtensionClean(ext: string)
    requires ext in ALLOWED_EXTENSIONS
    ensures '.' !in ext && '/' !in ext && Lower(ext) == ext
  {
  }

  /** The last occurrence of `c` is the one with no further `c` after it. */
  lemma LastIndexUnique(s: string, c: char, i: nat)
    requires i < |s| && s[i] == c && c !in s[i + 1..]
    ensures LastIndexOf(s, c) == Some(i)
  {
  }

  /** Whatever follows the last '.' is what `rsplit` hands back as the second part. */
  lemma SplitAtLastDot(stem: string, ext: string)
    requires '.' !in ext
    ensures RSplitOnce(stem + "." + ext, '.') == [stem, ext]
  {
    var f := stem + "." + ext;
    assert f[|stem|] == '.';
    assert f[|stem| + 1..] == ext;
    LastIndexUnique(f, '.', |stem|);
    assert f[..|stem|] == stem;
  }

  /**
   * The validator accepts exactly the names that end in '.' followed by a
   * dot-free extension whose lower-case form is allowed.
   */
  lemma AllowedFileCharacterization(f: string)
    ensures AllowedFile(f) <==>
      exists i :: 0 <= i < |f| && f[i] == '.' && '.' !in f[i + 1..] && Lower(f[i + 1..]) in ALLOWED_EXTENSIONS
  {
  }

  /** Lower-casing leaves every '.' where it was and creates none. */
  lemma LowerKeepsDots(s: string)
    ensures forall i :: 0 <= i < |s| ==> (Lower(s)[i] == '.' <==> s[i] == '.')
  {
  }

  /** Lower-casing maps each upper-case ASCII letter to its lower-case partner and changes nothing else. */
  lemma LowerRemovesUpperCase(s: string)
    ensures forall i :: 0 <= i < |s| ==>
      && !('A' <= Lower(s)[i] <= 'Z')
      && (Lower(s)[i] == s[i] <==> !('A' <= s[i] <= 'Z'))
      && ('A' <= s[i] <= 'Z' ==> Lower(s)[i] as int == s[i] as int + 32)
  {
  }

  lemma LowerIdempotent(s: string)
    ensures Lower(Lower(s)) == Lower(s)
  {
  }

  /** The check is case-insensitive: `x.PNG` is judged like `x.png`. */
  lemma AllowedFileIgnoresCase(f: string)
    ensures AllowedFile(Lower(f)) == AllowedFile(f)
  {
    var g := Lower(f);
    LowerKeepsDots(f);
    if '.' in f {
      var i := LastIndexOf(f, '.').value;
      assert g[i] == '.';
      assert '.' !in g[i + 1..] by {
        forall k | i + 1 <= k < |g| ensures g[k] != '.' {
          assert f[i + 1..][k - i - 1] == f[k];
        }
      }
      LastIndexUnique(g, '.', i);
      assert g[i + 1..] == Lower(f[i + 1..]);
      LowerIdempotent(f[i + 1..]);
    } else {
      assert '.' !in g by {
        forall k | 0 <= k < |g| ensures g[k] != '.' {
          assert f[k] != '.';
        }
      }
    }
  }

  /** Names the validator accepts: case does not matter, and the stem may be empty. */
  lemma AcceptedExamples()
    ensures AllowedFile("x.PNG")
    ensures AllowedFile(".png")
  {
    LastIndexUnique("x.PNG", '.', 1);
    assert Lower("PNG") == "png";
    LastIndexUnique(".png", '.', 0);
    assert Lower("png") == "png";
  }

  /** Names the validator refuses: only the last extension counts, and one must be there. */
  lemma RefusedExamples()
    ensures !AllowedFile("x.png.txt")
    ensures !AllowedFile("noext")
    ensures !AllowedFile("x.")
  {
    LastIndexUnique("x.png.txt", '.', 5);
    assert Lower("txt") == "txt";
    assert '.' !in "noext";
    LastIndexUnique("x.", '.', 1);
    assert Lower("") == "";
  }
}
