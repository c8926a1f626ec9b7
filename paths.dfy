/**
 * `os.path.splitext` on POSIX paths: a path splits into a root and an
 * extension, the extension running from the last '.' of the final path
 * component to the end. Leading dots of the final component do not start
 * an extension, so ".pdf" and "..pdf" have none.
 */
module Paths {
  import opened Strings

  datatype Split = Split(root: string, ext: string)

  /**
   * Some character of `p[lo..hi]` is not '.': the scan `splitext` makes
   * from just past the last '/' up to the last '.'.
   */
  predicate HasNonDot(p: string, lo: int, hi: int)
    requires 0 <= lo <= hi <= |p|
    decreases hi - lo
  {
    lo < hi && (p[lo] != '.' || HasNonDot(p, lo + 1, hi))
  }

  lemma {:induction false} HasNonDotIff(p: string, lo: int, hi: int)
    requires 0 <= lo <= hi <= |p|
    ensures HasNonDot(p, lo, hi) <==> exists j :: lo <= j < hi && p[j] != '.'
    decreases hi - lo
  {
    if lo < hi {
      HasNonDotIff(p, lo + 1, hi);
    }
  }

  /** Lower-casing changes no '.' into anything else and nothing else into '.'. */
  lemma {:induction false} HasNonDotLower(p: string, lo: int, hi: int)
    requires 0 <= lo <= hi <= |p|
    ensures HasNonDot(Lower(p), lo, hi) == HasNonDot(p, lo, hi)
    decreases hi - lo
  {
    if lo < hi {
      HasNonDotLower(p, lo + 1, hi);
    }
  }

  /**
   * The algorithm of `splitext`: find the last '/' and the last '.'; the
   * dot starts the extension when it lies in the final component and some
   * character other than '.' precedes it there.
   */
  function SplitExt(p: string): (r: Split)
    ensures r.root + r.ext == p
    ensures r.ext == [] || r.ext[0] == '.'
    ensures forall k :: 1 <= k < |r.ext| ==> r.ext[k] != '.' && r.ext[k] != '/'
  {
    var sepIndex := LastIndexOf(p, '/');
    var dotIndex := LastIndexOf(p, '.');
    if dotIndex > sepIndex && HasNonDot(p, sepIndex + 1, dotIndex) then
      Split(p[..dotIndex], p[dotIndex..])
    else
      Split(p, "")
  }

  /** `os.path.splitext(p)[1]`. */
  function Ext(p: string): string {
    SplitExt(p).ext
  }

  /**
   * An independent description of where an extension starts: a '.' with
   * neither '.' nor '/' after it, preceded in the same path component by
   * some character that is neither '.' nor '/'.
   */
  predicate IsExtensionDot(p: string, d: int) {
    && 0 <= d < |p|
    && p[d] == '.'
    && (forall k :: d < k < |p| ==> p[k] != '.' && p[k] != '/')
    && exists j :: 0 <= j < d && p[j] != '.' && p[j] != '/' && NoSlashBetween(p, j, d)
  }

  predicate NoSlashBetween(p: string, j: int, d: int)
    requires 0 <= j <= d <= |p|
  {
    forall k :: j < k < d ==> p[k] != '/'
  }

  /**
   * `splitext` finds an extension exactly when the path has an extension
   * dot in the sense above, and the extension is the path from that dot on.
   */
  lemma SplitExtCharacterization(p: string)
    ensures Ext(p) != "" <==> exists d :: IsExtensionDot(p, d)
    ensures Ext(p) != "" ==> IsExtensionDot(p, |p| - |Ext(p)|)
    ensures forall d :: IsExtensionDot(p, d) ==> Ext(p) == p[d..]
  {
    var sepIndex := LastIndexOf(p, '/');
    var dotIndex := LastIndexOf(p, '.');
    if Ext(p) != "" {
      assert dotIndex > sepIndex && HasNonDot(p, sepIndex + 1, dotIndex);
      HasNonDotIff(p, sepIndex + 1, dotIndex);
      var j :| sepIndex + 1 <= j < dotIndex && p[j] != '.';
      assert p[j] != '.' && p[j] != '/' && NoSlashBetween(p, j, dotIndex);
      assert IsExtensionDot(p, dotIndex);
    }
    forall d | IsExtensionDot(p, d)
      ensures Ext(p) == p[d..]
    {
      ExtensionDotIsLastDot(p, d);
    }
  }

  /** An extension dot is the last dot, lies past the last '/', and has a non-dot before it in its component. */
  lemma ExtensionDotIsLastDot(p: string, d: int)
    requires IsExtensionDot(p, d)
    ensures d == LastIndexOf(p, '.')
    ensures LastIndexOf(p, '/') < d
    ensures HasNonDot(p, LastIndexOf(p, '/') + 1, d)
    ensures Ext(p) == p[d..]
  {
    var sepIndex := LastIndexOf(p, '/');
    var j :| 0 <= j < d && p[j] != '.' && p[j] != '/' && NoSlashBetween(p, j, d);
    assert sepIndex < j;
    HasNonDotIff(p, sepIndex + 1, d);
  }

  /**
   * Lower-casing a path lower-cases its extension and nothing else about
   * the split: '.' and '/' are not letters, so neither index moves.
   */
  lemma ExtOfLower(p: string)
    ensures Ext(Lower(p)) == Lower(Ext(p))
  {
    var q := Lower(p);
    LastIndexOfLower(p, '/');
    LastIndexOfLower(p, '.');
    var sepIndex := LastIndexOf(p, '/');
    var dotIndex := LastIndexOf(p, '.');
    if dotIndex > sepIndex {
      HasNonDotLower(p, sepIndex + 1, dotIndex);
      assert q[dotIndex..] == Lower(p[dotIndex..]);
    }
  }

  /** Worked cases: only the last suffix counts, and its letters keep their case. */
  lemma LastSuffixExamples()
    ensures Ext("book.pdf") == ".pdf"
    ensures Ext("x.tar.gz") == ".gz"
    ensures Ext("BOOK.PDF") == ".PDF"
  {
    var p := "x.tar.gz";
    assert p[0] != '.' && p[0] != '/' && NoSlashBetween(p, 0, 5);
    ExtensionDotIsLastDot(p, 5);
    var q := "book.pdf";
    assert q[0] != '.' && q[0] != '/' && NoSlashBetween(q, 0, 4);
    ExtensionDotIsLastDot(q, 4);
    var u := "BOOK.PDF";
    assert u[0] != '.' && u[0] != '/' && NoSlashBetween(u, 0, 4);
    ExtensionDotIsLastDot(u, 4);
  }

  /** Worked cases without an extension: no dot at all, or a single leading dot. */
  lemma NoSuffixExamples()
    ensures Ext(".pdf") == ""
    ensures Ext("README") == ""
  {
  }

  /** Every leading dot is skipped, not only the first. */
  lemma LeadingDotsExample()
    ensures Ext("..pdf") == ""
  {
  }

  /**
   * A final component without a dot has no extension, whatever dots the
   * directories before it contain.
   */
  lemma NoDotInLastComponent(dir: string, name: string)
    requires '.' !in name && '/' !in name
    ensures Ext(dir + "/" + name) == ""
  {
    var p := dir + "/" + name;
    assert p[|dir|] == '/';
    assert forall k :: |dir| < k < |p| ==> p[k] == name[k - |dir| - 1];
  }

  lemma DirectoryDotExample()
    ensures Ext("v1.2/README") == ""
  {
    NoDotInLastComponent("v1.2", "README");
    assert "v1.2" + "/" + "README" == "v1.2/README";
  }
}
