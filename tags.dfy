/**
 * The tag editor's text handling: the field holds comma-separated tags; adding a
 * tag tidies the list and appends the tag when it is new; reading the field gives
 * its stripped text. The widget itself is left out: its text is an input and the
 * new text an output.
 */
module TagEdit {
  import opened Text

  /** A tag as the tidied list holds it: non-empty, without surrounding whitespace, without a comma. */
  predicate WellFormedTag(t: string) {
    t != [] && IsStripped(t) && ',' !in t
  }

  /** Stripping leaves a stripped string and adds no comma. */
  lemma {:induction false} StripForTags(s: string)
    ensures IsStripped(Strip(s))
    ensures ',' !in s ==> ',' !in Strip(s)
  {
    StripIsStrippedInfix(s);
    if ',' !in s {
      StripKeepsOut(s, ',');
    }
  }

  /** `[t.strip() for t in pieces if t.strip()]`. */
  function Cleaned(pieces: seq<string>): (tags: seq<string>)
    requires forall i :: 0 <= i < |pieces| ==> ',' !in pieces[i]
    ensures forall i :: 0 <= i < |tags| ==> WellFormedTag(tags[i])
  {
    if pieces == [] then []
    else
      var t := Strip(pieces[0]);
      StripForTags(pieces[0]);
      (if t != [] then [t] else []) + Cleaned(pieces[1..])
  }

  /** The tag list the field's text holds: its comma-separated pieces, stripped, empty ones dropped. */
  function TagList(text: string): (tags: seq<string>)
    ensures forall i :: 0 <= i < |tags| ==> WellFormedTag(tags[i])
  {
    Cleaned(SplitOn(Strip(text), ','))
  }

  /** The list with the tag appended unless it is already there; appending a well-formed tag to well-formed tags keeps them well-formed. */
  function WithTag(tags: seq<string>, tag: string): (r: seq<string>)
    ensures (WellFormedTag(tag) && forall i :: 0 <= i < |tags| ==> WellFormedTag(tags[i])) ==>
              forall i :: 0 <= i < |r| ==> WellFormedTag(r[i])
  {
    if tag in tags then tags else tags + [tag]
  }

  /** `add_tag`: the tidied list, with the tag appended unless it is already there, joined by ", ". */
  function AddTag(text: string, tag: string): string {
    Join(WithTag(TagList(text), tag), ", ")
  }

  /** `get_tags`: the field's text without surrounding whitespace. */
  function GetTags(text: string): (r: string)
    ensures IsStripped(r)
    ensures exists i :: OccursAt(text, r, i)
  {
    StripIsStrippedInfix(text);
    assert OccursAt(text, Strip(text), |text| - |LStrip(text)|);
    Strip(text)
  }

  /** Reading the field twice gives what reading it once gave. */
  lemma {:induction false} GetTagsIdempotent(text: string)
    ensures GetTags(GetTags(text)) == GetTags(text)
  {
    StripOfStripped(GetTags(text));
  }

  /** A tag is in the tidied list exactly when some piece of the stripped text strips to it and it is not empty. */
  lemma {:induction false} CleanedIff(pieces: seq<string>, t: string)
    requires forall i :: 0 <= i < |pieces| ==> ',' !in pieces[i]
    ensures t in Cleaned(pieces) <==> t != [] && exists p :: p in pieces && Strip(p) == t
  {
    if pieces != [] {
      CleanedIff(pieces[1..], t);
      if t != [] && Strip(pieces[0]) != t && (exists p :: p in pieces && Strip(p) == t) {
        var p :| p in pieces && Strip(p) == t;
        assert p in pieces[1..];
      }
    }
  }

  /** The tag list holds exactly the non-empty stripped pieces of the stripped text. */
  lemma {:induction false} TagListIff(text: string, t: string)
    ensures t in TagList(text) <==> t != [] && exists p :: p in SplitOn(Strip(text), ',') && Strip(p) == t
  {
    CleanedIff(SplitOn(Strip(text), ','), t);
  }

  /** Cleaning pieces that each strip to a given non-empty tag gives those tags. */
  lemma {:induction false} CleanedOfStripping(pieces: seq<string>, tags: seq<string>)
    requires forall i :: 0 <= i < |pieces| ==> ',' !in pieces[i]
    requires |pieces| == |tags|
    requires forall i :: 0 <= i < |pieces| ==> Strip(pieces[i]) == tags[i] && tags[i] != []
    ensures Cleaned(pieces) == tags
  {
    if pieces != [] {
      CleanedOfStripping(pieces[1..], tags[1..]);
      assert [tags[0]] + tags[1..] == tags;
    }
  }

  /** Round trip: the list that a ", "-joined list of well-formed tags holds is that list. */
  lemma {:induction false} TagListOfJoin(tags: seq<string>)
    requires forall i :: 0 <= i < |tags| ==> WellFormedTag(tags[i])
    ensures TagList(Join(tags, ", ")) == tags
  {
    var j := Join(tags, ", ");
    if tags == [] {
      assert Strip(j) == [];
      assert SplitOn([], ',') == [[]];
      assert Cleaned([[]]) == [];
    } else {
      JoinNonEmptyEnds(tags, ", ");
      StripOfStripped(j);
      assert ", " == [','] + " ";
      SplitOnJoin(tags, ',', " ");
      var pieces := Prefixed(tags, " ");
      forall i | 0 <= i < |pieces| ensures Strip(pieces[i]) == tags[i] && ',' !in pieces[i] {
        if i == 0 {
          StripOfStripped(tags[0]);
        } else {
          StripAfterSpaces(" ", tags[i]);
        }
      }
      CleanedOfStripping(pieces, tags);
    }
  }

  /**
   * Adding a well-formed tag: the existing tags keep their order, the tag is appended
   * last when it was not there, and nothing changes in the list when it was.
   */
  lemma {:induction false} AddTagList(text: string, tag: string)
    requires WellFormedTag(tag)
    ensures tag in TagList(text) ==> TagList(AddTag(text, tag)) == TagList(text)
    ensures tag !in TagList(text) ==> TagList(AddTag(text, tag)) == TagList(text) + [tag]
    ensures tag in TagList(AddTag(text, tag))
  {
    var w := WithTag(TagList(text), tag);
    TagListOfJoin(w);
    assert AddTag(text, tag) == Join(w, ", ");
  }

  /** Adding the same well-formed tag twice gives the text adding it once gave. */
  lemma {:induction false} AddTagIdempotent(text: string, tag: string)
    requires WellFormedTag(tag)
    ensures AddTag(AddTag(text, tag), tag) == AddTag(text, tag)
  {
    AddTagList(text, tag);
  }

  /** After adding a well-formed tag the field needs no stripping: reading it gives the text set. */
  lemma {:induction false} AddTagIsStripped(text: string, tag: string)
    requires WellFormedTag(tag)
    ensures GetTags(AddTag(text, tag)) == AddTag(text, tag)
  {
    var added := WithTag(TagList(text), tag);
    if added != [] {
      JoinNonEmptyEnds(added, ", ");
    }
    StripOfStripped(AddTag(text, tag));
  }
}
