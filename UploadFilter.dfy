/**
 * `allowed_file` in app.py: an upload is accepted when its file name has an
 * extension, the part after the last dot, that lower-cases to `pdf`.
 */
module UploadFilter {
  import opened Text

  /** `ALLOWED_EXTENSIONS`. */
  function AllowedExtensions(): set<string>
  {
    {"pdf"}
  }

  /** The index of the last occurrence of `c` in `s`, or -1 when there is none. */
  function LastIndexOf(s: string, c: char): (i: int)
    ensures -1 <= i < |s|
    ensures i == -1 <==> c !in s
    ensures i >= 0 ==> s[i] == c
    ensures forall j :: i < j < |s| ==> s[j] != c
  {
    if s == [] then -1
    else if s[|s| - 1] == c then |s| - 1
    else
      assert s == s[..|s| - 1] + [s[|s| - 1]];
      LastIndexOf(s[..|s| - 1], c)
  }

  /** `s.rsplit(c, 1)`: the whole of `s` when `c` does not occur in it, and
      otherwise the parts before and after the last `c`. */
  function RSplitOnce(s: string, c: char): (parts: seq<string>)
    ensures |parts| == if c in s then 2 else 1
    ensures Join([c], parts) == s
    ensures c !in parts[|parts| - 1]
  {
    var i := LastIndexOf(s, c);
    if i < 0 then [s]
    else
      assert s == s[..i] + [c] + s[i + 1..];
      [s[..i], s[i + 1..]]
  }

  function LowerChar(c: char): char
  {
    if 'A' <= c <= 'Z' then (c as int - 'A' as int + 'a' as int) as char else c
  }

  /** `s.lower()`, on the ASCII letters. */
  function AsciiLower(s: string): string
  {
    seq(|s|, i requires 0 <= i < |s| => LowerChar(s[i]))
  }

  /** `allowed_file(filename)`: there is a dot, and the text after the last dot,
      lower-cased, is an allowed extension. */
  predicate AllowedFile(filename: string)
  {
    '.' in filename && AsciiLower(RSplitOnce(filename, '.')[1]) in AllowedExtensions()
  }

  /** Lower-casing only changes letters: the dot stays where it is. */
  lemma LowerCharDot(c: char)
    ensures LowerChar(c) == '.' <==> c == '.'
  {
  }

  /** A file is accepted exactly when its name ends with a dot followed by three
      characters that lower-case to `pdf`; the name may be nothing but `.pdf`. */
  lemma AllowedFileIff(filename: string)
    ensures AllowedFile(filename)
            <==> |filename| >= 4 && filename[|filename| - 4] == '.'
                 && AsciiLower(filename[|filename| - 3..]) == "pdf"
  {
    var n := |filename|;
    if AllowedFile(filename) {
      var i := LastIndexOf(filename, '.');
      var ext := RSplitOnce(filename, '.')[1];
      assert ext == filename[i + 1..];
      assert |AsciiLower(ext)| == 3;
      assert i == n - 4;
    }
    if n >= 4 && filename[n - 4] == '.' && AsciiLower(filename[n - 3..]) == "pdf" {
      var tail := filename[n - 3..];
      forall j | n - 4 < j < n
        ensures filename[j] != '.'
      {
        assert filename[j] == tail[j - (n - 3)];
        assert AsciiLower(tail)[j - (n - 3)] == "pdf"[j - (n - 3)];
        LowerCharDot(tail[j - (n - 3)]);
      }
      var i := LastIndexOf(filename, '.');
      assert i == n - 4;
    }
  }

  /** The verdict does not depend on the case of the letters in the name. */
  lemma AllowedFileCaseInsensitive(filename: string)
    ensures AllowedFile(AsciiLower(filename)) <==> AllowedFile(filename)
  {
    var low := AsciiLower(filename);
    var n := |filename|;
    AllowedFileIff(filename);
    AllowedFileIff(low);
    if n >= 4 {
      LowerCharDot(filename[n - 4]);
      assert AsciiLower(low[n - 3..]) == AsciiLower(filename[n - 3..]);
    }
  }
}
