/**
 * Slug derivation in `parseMarkdownFile` (build/utils.js):
 * `filename.replace(/\.(md|html)$/, '')`.
 *
 * The pattern has no `m` flag, so `$` matches only at the end of the input:
 * a match is a suffix `.md` or `.html`, compared case-sensitively.  The
 * replace is not global, so at most the leftmost match is removed.
 */
module Filenames {

  /** True when `s` ends with `suffix`. */
  predicate EndsWith(s: string, suffix: string) {
    |suffix| <= |s| && s[|s| - |suffix|..] == suffix
  }

  /** The pattern `\.(md|html)$` matches at index `i` of `filename`. */
  predicate ExtensionMatchAt(filename: string, i: nat) {
    i <= |filename| && (filename[i..] == ".md" || filename[i..] == ".html")
  }

  /**
   * The slug of a filename: the name with one trailing `.md` or `.html`
   * removed.  The result is always a prefix of the name, shorter by the
   * length of the removed extension or not at all.
   */
  function Slug(filename: string): (slug: string)
    ensures slug <= filename
    ensures |filename| - |slug| in {0, 3, 5}
  {
    if EndsWith(filename, ".md") then filename[..|filename| - 3]
    else if EndsWith(filename, ".html") then filename[..|filename| - 5]
    else filename
  }

  /** The pattern matches in at most one place of a name. */
  lemma MatchUnique(filename: string, i: nat, j: nat)
    requires ExtensionMatchAt(filename, i) && ExtensionMatchAt(filename, j)
    ensures i == j
  {
    MatchShape(filename, i);
    MatchShape(filename, j);
  }

  /** A match is `.md` three from the end or `.html` five from the end; the two differ three from the end. */
  lemma MatchShape(filename: string, i: nat)
    requires ExtensionMatchAt(filename, i)
    ensures var n := |filename|;
      || (i + 3 == n && filename[n - 3] == '.')
      || (i + 5 == n && filename[n - 3] == 't')
  {
    assert |filename[i..]| == |filename| - i;
    if filename[i..] == ".html" {
      assert filename[i..][2] == filename[i + 2];
    } else {
      assert filename[i..][0] == filename[i];
    }
  }

  /**
   * `Slug` agrees with the regular-expression replace: where the pattern
   * matches, everything from the match on is dropped; where it matches
   * nowhere, the name is returned unchanged.
   */
  lemma SlugMatchesPattern(filename: string)
    ensures forall i: nat | ExtensionMatchAt(filename, i) :: Slug(filename) == filename[..i]
    ensures (forall i: nat | i <= |filename| :: !ExtensionMatchAt(filename, i)) ==> Slug(filename) == filename
  {
    var n := |filename|;
    if EndsWith(filename, ".md") {
      assert ExtensionMatchAt(filename, n - 3);
      forall i: nat | ExtensionMatchAt(filename, i) ensures Slug(filename) == filename[..i] {
        MatchUnique(filename, i, n - 3);
      }
    } else if EndsWith(filename, ".html") {
      assert ExtensionMatchAt(filename, n - 5);
      forall i: nat | ExtensionMatchAt(filename, i) ensures Slug(filename) == filename[..i] {
        MatchUnique(filename, i, n - 5);
      }
    }
  }

  /** A name ending in `.md` loses exactly those three characters. */
  lemma SlugStripsMd(base: string)
    ensures Slug(base + ".md") == base
  {
    var f := base + ".md";
    assert f[|f| - 3..] == ".md";
    assert f[..|f| - 3] == base;
  }

  /** A name ending in `.html` loses exactly those five characters. */
  lemma SlugStripsHtml(base: string)
    ensures Slug(base + ".html") == base
  {
    var f := base + ".html";
    assert f[|f| - 5..] == ".html";
    assert !EndsWith(f, ".md") by {
      assert f[|f| - 3..][0] == 't';
    }
    assert f[..|f| - 5] == base;
  }

  /** A name is its own slug exactly when it ends in neither extension. */
  lemma SlugUnchangedIff(filename: string)
    ensures Slug(filename) == filename <==> !EndsWith(filename, ".md") && !EndsWith(filename, ".html")
  {
  }

  /**
   * The match is case-sensitive and exact, and only one extension goes:
   * `a.MD` and `a.htm` keep their names, `a.md.md` becomes `a.md`.
   */
  lemma SlugEdgeCases()
    ensures Slug("a.MD") == "a.MD"
    ensures Slug("a.htm") == "a.htm"
    ensures Slug("a.md.md") == "a.md"
    ensures Slug("index.html") == "index"
    ensures Slug(".md") == ""
  {
    SlugUnchangedIff("a.MD");
    SlugUnchangedIff("a.htm");
    SlugStripsMd("a.md");
    assert "a.md" + ".md" == "a.md.md";
    SlugStripsHtml("index");
    assert "index" + ".html" == "index.html";
    SlugStripsMd("");
    assert "" + ".md" == ".md";
  }
}
