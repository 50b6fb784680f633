/**
 * The data migration that tags every stored password hash with its
 * algorithm. Each direction runs two SQL UPDATE statements over the
 * `password` column; here each direction is the composed per-row string
 * function. `LIKE 'md5%'` is a prefix test (the `%%` in the source is only
 * DB-API escaping of `%`).
 */
module PasswordMigration {
  import opened PyStrings

  /** The value that marks an account without a usable password. */
  const Unusable: string := "!"
  /** The pre-migration spelling of an unusable password. */
  const LegacyUnusable: string := "!$!"
  const Sha1Tag: string := "sha1$"
  const Md5Tag: string := "md5"

  /** First forwards statement: `'!$!'` becomes `'!'`. */
  function ForwardsUnusable(p: string): string {
    if p == LegacyUnusable then Unusable else p
  }

  /** Second forwards statement: tag every remaining un-tagged hash as SHA-1. */
  function ForwardsTag(p: string): string {
    if p != Unusable && !StartsWith(p, Md5Tag) then Sha1Tag + p else p
  }

  /** Both forwards statements, in order, applied to one row. */
  function Forwards(p: string): (q: string)
    ensures p == LegacyUnusable ==> q == Unusable
    ensures p == Unusable ==> q == Unusable
    ensures p != LegacyUnusable && StartsWith(p, Md5Tag) ==> q == p
    ensures p != LegacyUnusable && p != Unusable && !StartsWith(p, Md5Tag) ==> q == Sha1Tag + p
  {
    ForwardsTag(ForwardsUnusable(p))
  }

  /** First backwards statement: `'!'` becomes `'!$!'`. */
  function BackwardsUnusable(p: string): string {
    if p == Unusable then LegacyUnusable else p
  }

  /** Second backwards statement: remove every `sha1$`. */
  function BackwardsUntag(p: string): string {
    ReplaceAll(p, Sha1Tag, "")
  }

  /** Both backwards statements, in order, applied to one row. */
  function Backwards(q: string): (p: string)
    ensures q == Unusable ==> p == LegacyUnusable
    ensures q != Unusable && !Contains(q, Sha1Tag) ==> p == q
    ensures StartsWith(q, Sha1Tag) ==> p == BackwardsUntag(q[|Sha1Tag|..])
  {
    if StartsWith(q, Sha1Tag) then
      UntagSplits("", q[|Sha1Tag|..]);
      assert "" + Sha1Tag + q[|Sha1Tag|..] == q;
      BackwardsUntag(BackwardsUnusable(q))
    else if q != Unusable && !Contains(q, Sha1Tag) then
      ReplaceAbsent(q, Sha1Tag, "");
      BackwardsUntag(BackwardsUnusable(q))
    else
      BackwardsUntag(BackwardsUnusable(q))
  }

  /** No two `sha1$` tags can overlap. */
  lemma TagHeadUnique()
    ensures HeadUnique(Sha1Tag)
  {
  }

  /**
   * `replace` removes the first tag and carries on after it: a value
   * holding no tag before its first `sha1$` keeps that part, then loses the tag.
   */
  lemma UntagSplits(x: string, y: string)
    requires !Contains(x, Sha1Tag)
    ensures BackwardsUntag(x + Sha1Tag + y) == x + BackwardsUntag(y)
  {
    TagHeadUnique();
    ReplaceSplits(x, Sha1Tag, "", y);
  }

  /** Every `sha1$` goes: tag-free pieces joined by tags come back as the pieces joined. */
  lemma UntagRemovesEvery(parts: seq<string>)
    requires forall i :: 0 <= i < |parts| ==> !Contains(parts[i], Sha1Tag)
    ensures BackwardsUntag(JoinOn(parts, Sha1Tag)) == Concat(parts)
  {
    TagHeadUnique();
    ReplaceJoin(parts, Sha1Tag, "");
    JoinOnEmpty(parts);
  }

  /** After the forwards step every value names its algorithm or is unusable. */
  lemma ForwardsTagsEveryRow(p: string)
    ensures var q := Forwards(p);
      q == Unusable || StartsWith(q, Md5Tag) || StartsWith(q, Sha1Tag)
  {
  }

  /**
   * The migration is declared symmetrical: undoing it restores every row
   * that is not `!` and holds no `sha1$`.
   */
  lemma {:induction false} RoundTrip(p: string)
    requires p != Unusable && !Contains(p, Sha1Tag)
    ensures Backwards(Forwards(p)) == p
  {
    if p == LegacyUnusable {
      assert Backwards(Unusable) == LegacyUnusable;
    } else if StartsWith(p, Md5Tag) {
      assert Forwards(p) == p;
    } else {
      var q := Forwards(p);
      assert q == Sha1Tag + p;
      assert q[..|Sha1Tag|] == Sha1Tag && q[|Sha1Tag|..] == p;
      ReplaceAbsent(p, Sha1Tag, "");
    }
  }

  /** `!` comes back as `!$!`: the round trip does not restore it. */
  lemma UnusableNotRestored()
    ensures Backwards(Forwards(Unusable)) == LegacyUnusable != Unusable
  {
  }

  /** A row already holding `sha1$` loses it on the way back. */
  lemma TaggedRowNotRestored()
    ensures Backwards(Forwards("sha1$x")) == "x"
  {
    var p := "sha1$x";
    assert p[..|Md5Tag|][0] != Md5Tag[0];
    var q := Forwards(p);
    assert q == "sha1$sha1$x";
    assert q[..5] == Sha1Tag;
    assert q[5..] == "sha1$x";
    assert q[5..][..5] == Sha1Tag;
    assert q[5..][5..] == "x";
    assert Backwards(q) == ReplaceAll(q, Sha1Tag, "");
  }
}
