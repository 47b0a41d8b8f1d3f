/**
 * Per-character formatting. Every character of the text carries the set of
 * formatting tags applied to it; tag_add and tag_remove change that set over
 * a range, and the bold, italic and underline commands toggle a tag over the
 * selection according to the first selected character.
 */
module Formatting {

  /** The tags the editor applies: bold, italic, underline, the text colour and the changed font. */
  datatype Tag = Bold | Italic | Underline | Colored | FontChange

  /** tag_add: every character of [lo, hi) carries `t` afterwards; nothing else changes. */
  function WithTag(tags: seq<set<Tag>>, t: Tag, lo: nat, hi: nat): (r: seq<set<Tag>>)
    requires lo <= hi <= |tags|
    ensures |r| == |tags|
    ensures forall i :: 0 <= i < |r| ==> (t in r[i] <==> (lo <= i < hi || t in tags[i]))
    ensures forall i, u :: 0 <= i < |r| && u != t ==> (u in r[i] <==> u in tags[i])
  {
    seq(|tags|, i requires 0 <= i < |tags| => if lo <= i < hi then tags[i] + {t} else tags[i])
  }

  /** tag_remove: no character of [lo, hi) carries `t` afterwards; nothing else changes. */
  function WithoutTag(tags: seq<set<Tag>>, t: Tag, lo: nat, hi: nat): (r: seq<set<Tag>>)
    requires lo <= hi <= |tags|
    ensures |r| == |tags|
    ensures forall i :: 0 <= i < |r| ==> (t in r[i] <==> (!(lo <= i < hi) && t in tags[i]))
    ensures forall i, u :: 0 <= i < |r| && u != t ==> (u in r[i] <==> u in tags[i])
  {
    seq(|tags|, i requires 0 <= i < |tags| => if lo <= i < hi then tags[i] - {t} else tags[i])
  }

  /**
   * The toggle over a selection [lo, hi): if its first character carries `t`,
   * the whole selection loses `t`, otherwise the whole selection gains it.
   * Either way the selection ends uniform, the other tags are untouched and
   * the characters outside the selection keep their tags.
   */
  function Toggled(tags: seq<set<Tag>>, t: Tag, lo: nat, hi: nat): (r: seq<set<Tag>>)
    requires lo < hi <= |tags|
    ensures |r| == |tags|
    ensures t in tags[lo] ==> forall i :: lo <= i < hi ==> t !in r[i]
    ensures t !in tags[lo] ==> forall i :: lo <= i < hi ==> t in r[i]
    ensures forall i :: 0 <= i < |r| && !(lo <= i < hi) ==> r[i] == tags[i]
    ensures forall i, u :: 0 <= i < |r| && u != t ==> (u in r[i] <==> u in tags[i])
  {
    if t in tags[lo] then WithoutTag(tags, t, lo, hi) else WithTag(tags, t, lo, hi)
  }

  /** Every character of [lo, hi) agrees with the first one on `t`. */
  ghost predicate Uniform(tags: seq<set<Tag>>, t: Tag, lo: nat, hi: nat)
    requires lo < hi <= |tags|
  {
    forall i :: lo <= i < hi ==> (t in tags[i] <==> t in tags[lo])
  }

  lemma SameTagSets(a: seq<set<Tag>>, b: seq<set<Tag>>)
    requires |a| == |b|
    requires forall i, u :: 0 <= i < |a| ==> (u in a[i] <==> u in b[i])
    ensures a == b
  {
    forall i | 0 <= i < |a| ensures a[i] == b[i] {
      assert forall u :: u in a[i] <==> u in b[i];
    }
  }

  /**
   * Toggling twice over the same selection restores the original tags exactly
   * when the selection was uniform for that tag to begin with.
   */
  lemma ToggleTwiceIffUniform(tags: seq<set<Tag>>, t: Tag, lo: nat, hi: nat)
    requires lo < hi <= |tags|
    ensures Toggled(Toggled(tags, t, lo, hi), t, lo, hi) == tags <==> Uniform(tags, t, lo, hi)
  {
    var once := Toggled(tags, t, lo, hi);
    var twice := Toggled(once, t, lo, hi);
    if Uniform(tags, t, lo, hi) {
      forall i, u | 0 <= i < |tags| ensures u in twice[i] <==> u in tags[i] {
        if lo <= i < hi && u == t {
          assert t in once[lo] <==> t !in tags[lo];
        }
      }
      SameTagSets(twice, tags);
    } else {
      var k :| lo <= k < hi && !(t in tags[k] <==> t in tags[lo]);
      assert t in once[lo] <==> t !in tags[lo];
      assert t in twice[k] <==> t in tags[lo];
    }
  }

  /** When the first selected character lacks the tag, two toggles leave the whole selection without it. */
  lemma ToggleTwiceFromUntagged(tags: seq<set<Tag>>, t: Tag, lo: nat, hi: nat)
    requires lo < hi <= |tags| && t !in tags[lo]
    ensures forall i :: lo <= i < hi ==> t !in Toggled(Toggled(tags, t, lo, hi), t, lo, hi)[i]
  {
    assert t in Toggled(tags, t, lo, hi)[lo];
  }
}
