/**
 * Comment composition (types.go): comment blocks become trimmed strings; the
 * leading blocks of a declaration are joined by single spaces, and the inline
 * comment is attached with a caller-chosen separator.
 */
module Comments {
  import opened Wrappers
  import opened GoStrings
  import opened ProtoTree

  /** extractComment: a comment block's lines joined by newlines and trimmed; no comment gives "". */
  function ExtractComment(pc: Option<Comment>): string
  {
    match pc
    case None => ""
    case Some(c) => ExtractBlock(c)
  }

  /** The text of one comment block: its lines joined by newlines, trimmed. */
  function ExtractBlock(c: Comment): string
  {
    TrimSpace(Join(c.lines, "\n"))
  }

  /**
   * A missing comment extracts to "". A present one extracts to "" exactly
   * when its lines hold nothing but white space; otherwise the text neither
   * starts nor ends with white space.
   */
  lemma ExtractedIsTrimmed(pc: Option<Comment>)
    ensures pc.None? ==> ExtractComment(pc) == ""
    ensures pc.Some? ==> var text := Join(pc.value.lines, "\n");
      ExtractComment(pc) == "" <==> forall k :: 0 <= k < |text| ==> IsSpace(text[k])
    ensures var r := ExtractComment(pc);
      r != [] ==> !IsSpace(r[0]) && !IsSpace(r[|r| - 1])
  {
    if pc.Some? {
      TrimSpaceSpec(Join(pc.value.lines, "\n"));
      TrimSpaceEmpty(Join(pc.value.lines, "\n"));
    }
  }

  /** The extracted text of each leading comment block, in order. */
  function ExtractAll(pcs: seq<Comment>): (r: seq<string>)
    ensures |r| == |pcs|
    ensures forall i :: 0 <= i < |pcs| ==> r[i] == ExtractBlock(pcs[i])
  {
    if pcs == [] then [] else ExtractAll(pcs[..|pcs| - 1]) + [ExtractBlock(pcs[|pcs| - 1])]
  }

  /** What composeHeadComment returns: the extracted blocks joined by single spaces. */
  function HeadComment(pcs: seq<Comment>): string
  {
    Join(ExtractAll(pcs), " ")
  }

  /** composeHeadComment: collects the extracted blocks in a loop, then joins them. */
  method ComposeHeadComment(pcs: seq<Comment>) returns (r: string)
    ensures r == HeadComment(pcs)
  {
    var ss: seq<string> := [];
    for i := 0 to |pcs|
      invariant |ss| == i
      invariant forall k :: 0 <= k < i ==> ss[k] == ExtractBlock(pcs[k])
    {
      var s := ExtractBlock(pcs[i]);
      ss := ss + [s];
    }
    assert ss == ExtractAll(pcs);
    r := Join(ss, " ");
  }

  /** No leading blocks give the empty comment. */
  lemma HeadCommentNone()
    ensures HeadComment([]) == ""
  {
  }

  /** One more leading block adds a space and its text at the end. */
  lemma HeadCommentSnoc(pcs: seq<Comment>, c: Comment)
    requires pcs != []
    ensures HeadComment(pcs + [c]) == HeadComment(pcs) + " " + ExtractBlock(c)
  {
    assert ExtractAll(pcs + [c]) == ExtractAll(pcs) + [ExtractBlock(c)];
    JoinSnoc(ExtractAll(pcs), ExtractBlock(c), " ");
  }

  /**
   * composeHeadAndInlineComment: the head comment, then `sep`, then the inline
   * comment, where the separator appears only when both sides are non-empty.
   */
  function ComposeHeadAndInlineComment(pcs: seq<Comment>, pic: Option<Comment>, sep: string): (r: string)
    ensures var head, inline := HeadComment(pcs), ExtractComment(pic);
      && |r| == |head| + |inline| + (if head != "" && inline != "" then |sep| else 0)
      && r[..|head|] == head
      && r[|r| - |inline|..] == inline
      && (head != "" && inline != "" ==> r[|head|..|head| + |sep|] == sep)
  {
    var head := HeadComment(pcs);
    var inline := ExtractComment(pic);
    if head == "" then inline
    else if inline == "" then head
    else head + sep + inline
  }

  /** The composed comment is empty exactly when both sides are. */
  lemma ComposedEmpty(pcs: seq<Comment>, pic: Option<Comment>, sep: string)
    ensures ComposeHeadAndInlineComment(pcs, pic, sep) == "" <==> HeadComment(pcs) == "" && ExtractComment(pic) == ""
  {
  }

  /** With one side empty, the other side is returned as it is. */
  lemma ComposedOneSide(pcs: seq<Comment>, pic: Option<Comment>, sep: string)
    ensures HeadComment(pcs) == "" ==> ComposeHeadAndInlineComment(pcs, pic, sep) == ExtractComment(pic)
    ensures ExtractComment(pic) == "" ==> ComposeHeadAndInlineComment(pcs, pic, sep) == HeadComment(pcs)
  {
    var r := ComposeHeadAndInlineComment(pcs, pic, sep);
    if HeadComment(pcs) == "" {
      assert r == r[|r| - |ExtractComment(pic)|..];
    } else if ExtractComment(pic) == "" {
      assert r == r[..|HeadComment(pcs)|];
    }
  }
}
