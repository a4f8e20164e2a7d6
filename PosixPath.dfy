/** The three `posixpath` functions the core calls: `split`, `splitext` and `join`. */
module PosixPath {
  import opened Text

  /** `posixpath.split(p)`: the tail is everything after the last '/'; the head is everything
      up to it, with its trailing slashes stripped unless it consists of slashes only. */
  function Split(p: string): (r: (string, string))
    ensures '/' !in r.1
    ensures '/' !in p ==> r == ("", p)
    ensures '/' in p ==> r.1 == p[LastIndex(p, '/') + 1..]
    ensures r.0 <= p
    ensures r.0 == "" <==> '/' !in p
    ensures AllChar(r.0, '/') ==> r.0 == p[..LastIndex(p, '/') + 1]
    ensures !AllChar(r.0, '/') ==> |r.0| <= LastIndex(p, '/') && r.0[|r.0| - 1] != '/'
    ensures '/' in p ==> AllChar(p[|r.0|..LastIndex(p, '/') + 1], '/')
  {
    var k := LastIndex(p, '/');
    if k < 0 then ("", p)
    else
      LastSlash(p);
      var h := StripHead(p[..k + 1]);
      assert p[|h|..k + 1] == p[..k + 1][|h|..];
      (h, p[k + 1..])
  }

  /** When there is a '/', the text after the last one holds none and the text up to it ends
      with it. */
  lemma LastSlash(p: string)
    requires '/' in p
    ensures var i := LastIndex(p, '/') + 1;
      '/' !in p[i..] && p[..i] != "" && p[..i][i - 1] == '/'
  {
    var i := LastIndex(p, '/') + 1;
    var tail := p[i..];
    assert forall j :: 0 <= j < |tail| ==> tail[j] == p[i + j];
  }

  /** The head of a split: kept when it is empty or all slashes, else stripped of its trailing
      slashes, which leaves at least one character. */
  function StripHead(head: string): (h: string)
    requires head == "" || head[|head| - 1] == '/'
    ensures h <= head
    ensures h == "" <==> head == ""
    ensures AllChar(h, '/') ==> h == head
    ensures !AllChar(h, '/') ==> |h| < |head| && h[|h| - 1] != '/'
    ensures AllChar(head[|h|..], '/')
  {
    if head != "" && !AllChar(head, '/') then
      var h := RStrip(head, '/');
      assert AllChar(head[|h|..], '/');
      assert forall k :: |h| <= k < |head| ==> head[k] == head[|h|..][k - |h|];
      h
    else head
  }

  /** `posixpath.splitext(p)`: the extension is the text from the last '.' on, provided that
      dot comes after the last '/' and is not part of a run of leading dots of the final
      component; otherwise it is empty. */
  function SplitExt(p: string): (r: (string, string))
    ensures r.0 + r.1 == p
    ensures r.1 != "" ==> r.1[0] == '.'
    ensures forall j :: 0 <= j < |r.1| ==> r.1[j] != '/'
    ensures forall j :: 1 <= j < |r.1| ==> r.1[j] != '.'
    ensures r.1 != "" <==> LastIndex(p, '.') > LastIndex(p, '/')
                           && !AllChar(p[LastIndex(p, '/') + 1..LastIndex(p, '.')], '.')
    ensures r.1 != "" ==> |r.0| == LastIndex(p, '.')
  {
    var sepIndex := LastIndex(p, '/');
    var dotIndex := LastIndex(p, '.');
    if dotIndex > sepIndex && !AllChar(p[sepIndex + 1..dotIndex], '.') then
      var ext := p[dotIndex..];
      ExtensionChars(p, sepIndex, dotIndex);
      (p[..dotIndex], ext)
    else (p, "")
  }

  /** The text from the last '.' on, when that dot follows the last '/', holds no '/' and no
      further '.'. */
  lemma ExtensionChars(p: string, sepIndex: int, dotIndex: int)
    requires sepIndex == LastIndex(p, '/') && dotIndex == LastIndex(p, '.') && dotIndex > sepIndex
    ensures p[..dotIndex] + p[dotIndex..] == p
    ensures p[dotIndex..][0] == '.'
    ensures forall j :: 0 <= j < |p[dotIndex..]| ==> p[dotIndex..][j] != '/'
    ensures forall j :: 1 <= j < |p[dotIndex..]| ==> p[dotIndex..][j] != '.'
  {
    var ext := p[dotIndex..];
    assert forall j :: 0 <= j < |ext| ==> ext[j] == p[dotIndex + j];
  }

  /** `posixpath.join(a, b)`: `b` itself when it is absolute, otherwise `b` appended to `a`
      with one '/' between them unless `a` is empty or already ends with '/'. */
  function Join(a: string, b: string): (r: string)
    ensures |b| <= |r| && r[|r| - |b|..] == b
    ensures |b| > 0 && b[0] == '/' ==> r == b
    ensures !(|b| > 0 && b[0] == '/') ==> |a| <= |r| && r[..|a|] == a
    ensures !(|b| > 0 && b[0] == '/') ==> |r| == |a| + |b| + (if a == "" || a[|a| - 1] == '/' then 0 else 1)
    ensures !(|b| > 0 && b[0] == '/') && |r| > |a| + |b| ==> r[|a|] == '/'
  {
    if |b| > 0 && b[0] == '/' then b
    else if a == "" || a[|a| - 1] == '/' then a + b
    else a + "/" + b
  }

  /** A root that does not end in '.' or '/' followed by a dot and text without '.' or '/'
      splits into that root and that extension. */
  lemma SplitExtOf(root: string, ext: string)
    requires root != "" && root[|root| - 1] != '.' && root[|root| - 1] != '/'
    requires |ext| >= 1 && ext[0] == '.' && '/' !in ext && '.' !in ext[1..]
    ensures SplitExt(root + ext) == (root, ext)
  {
    var p := root + ext;
    var dot := |root|;
    assert p[dot] == '.';
    assert forall j :: dot < j < |p| ==> p[j] == ext[1..][j - dot - 1];
    assert LastIndex(p, '.') == dot;
    var sep := LastIndex(p, '/');
    assert sep < dot;
    assert p[sep + 1..dot][dot - sep - 2] == root[|root| - 1];
    assert p[..dot] == root;
    assert p[dot..] == ext;
  }
}
