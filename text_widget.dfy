/**
 * The text widget the editor works on, reduced to what its handlers use: the
 * characters, the tags of every character, the selection, the insertion
 * cursor and the configuration of the colour and font tags.
 *
 * The widget always keeps one line feed after the last character; reading
 * the whole widget returns it, and deleting everything leaves it in place.
 */
module TextWidget {

  import opened Wrappers
  import opened Formatting

  /** A non-empty selected range [first, last). */
  datatype Span = Span(first: nat, last: nat)

  datatype FontSpec = FontSpec(family: string, size: int)

  /** The tags inserted text receives: those present on both neighbouring characters. */
  function Inherited(tags: seq<set<Tag>>, pos: nat): (r: set<Tag>)
    requires pos <= |tags|
    ensures 0 < pos < |tags| ==> forall u :: u in r <==> u in tags[pos - 1] && u in tags[pos]
    ensures pos == 0 || pos == |tags| ==> r == {}
  {
    if 0 < pos < |tags| then tags[pos - 1] * tags[pos] else {}
  }

  /**
   * How the selection moves when n characters are inserted at pos. The
   * selection is a tag too, so inserted text joins it only when inserted
   * strictly inside it.
   */
  function ShiftSpan(sel: Option<Span>, pos: nat, n: nat): (r: Option<Span>)
    requires sel.Some? ==> sel.value.first < sel.value.last
    ensures r.None? <==> sel.None?
    ensures sel.Some? && pos <= sel.value.first ==> r == Some(Span(sel.value.first + n, sel.value.last + n))
    ensures sel.Some? && sel.value.first < pos < sel.value.last ==> r == Some(Span(sel.value.first, sel.value.last + n))
    ensures sel.Some? && sel.value.last <= pos ==> r == sel
  {
    match sel
    case None => None
    case Some(span) =>
      Some(Span(if pos <= span.first then span.first + n else span.first,
                if pos < span.last then span.last + n else span.last))
  }

  /** The tags after inserting n characters at pos: the new characters get the inherited tags. */
  function TagsAfterInsert(tags: seq<set<Tag>>, pos: nat, n: nat): (r: seq<set<Tag>>)
    requires pos <= |tags|
    ensures |r| == |tags| + n
    ensures r[..pos] == tags[..pos] && r[pos + n..] == tags[pos..]
    ensures forall i :: pos <= i < pos + n ==> r[i] == Inherited(tags, pos)
  {
    var inherited := Inherited(tags, pos);
    tags[..pos] + seq(n, _ => inherited) + tags[pos..]
  }

  class TextArea {
    var chars: string
    var tags: seq<set<Tag>>
    var sel: Option<Span>
    var cursor: nat
    var colour: Option<string>
    var font: Option<FontSpec>

    ghost predicate Valid()
      reads this
    {
      && |tags| == |chars|
      && cursor <= |chars|
      && (sel.Some? ==> sel.value.first < sel.value.last <= |chars|)
    }

    constructor ()
      ensures Valid()
      ensures chars == [] && tags == [] && sel == None && cursor == 0
      ensures colour == None && font == None
    {
      chars, tags, sel, cursor := [], [], None, 0;
      colour, font := None, None;
    }

    /** The whole widget, get(1.0, END): the text and the final line feed. */
    function Dump(): (s: string)
      reads this
      ensures |s| == |chars| + 1 && s[|chars|] == '\n'
      ensures s[..|chars|] == chars
    {
      chars + "\n"
    }

    /** tag_add over [first, last). */
    method TagAdd(t: Tag, first: nat, last: nat)
      requires Valid() && first <= last <= |chars|
      modifies this`tags
      ensures Valid()
      ensures tags == WithTag(old(tags), t, first, last)
    {
      var i := first;
      while i < last
        invariant first <= i <= last
        invariant |tags| == |old(tags)|
        invariant forall k :: 0 <= k < |tags| ==> tags[k] == if first <= k < i then old(tags)[k] + {t} else old(tags)[k]
      {
        tags := tags[i := tags[i] + {t}];
        i := i + 1;
      }
    }

    /** tag_remove over [first, last). */
    method TagRemove(t: Tag, first: nat, last: nat)
      requires Valid() && first <= last <= |chars|
      modifies this`tags
      ensures Valid()
      ensures tags == WithoutTag(old(tags), t, first, last)
    {
      var i := first;
      while i < last
        invariant first <= i <= last
        invariant |tags| == |old(tags)|
        invariant forall k :: 0 <= k < |tags| ==> tags[k] == if first <= k < i then old(tags)[k] - {t} else old(tags)[k]
      {
        tags := tags[i := tags[i] - {t}];
        i := i + 1;
      }
    }

    /** insert at pos, without a tag list. The cursor moves along when text is inserted at or before it. */
    method Insert(pos: nat, s: string)
      requires Valid() && pos <= |chars|
      modifies this`chars, this`tags, this`sel, this`cursor
      ensures Valid()
      ensures chars == old(chars[..pos]) + s + old(chars[pos..])
      ensures tags == TagsAfterInsert(old(tags), pos, |s|)
      ensures sel == ShiftSpan(old(sel), pos, |s|)
      ensures cursor == if pos <= old(cursor) then old(cursor) + |s| else old(cursor)
    {
      chars := chars[..pos] + s + chars[pos..];
      tags := TagsAfterInsert(tags, pos, |s|);
      sel := ShiftSpan(sel, pos, |s|);
      if pos <= cursor {
        cursor := cursor + |s|;
      }
    }

    /** delete(1.0, END): the text, its tags and the selection go; the final line feed stays. */
    method DeleteAll()
      requires Valid()
      modifies this`chars, this`tags, this`sel, this`cursor
      ensures Valid()
      ensures chars == [] && tags == [] && sel == None && cursor == 0
    {
      chars, tags, sel, cursor := [], [], None, 0;
    }

    /** tag_config of the colour tag: one foreground for every coloured character. */
    method ConfigureColour(c: string)
      modifies this`colour
      ensures colour == Some(c)
    {
      colour := Some(c);
    }

    /** tag_config of the font tag: one font for every character whose font was changed. */
    method ConfigureFont(f: FontSpec)
      modifies this`font
      ensures font == Some(f)
    {
      font := Some(f);
    }
  }
}
