/**
 * How `analyze_content_with_gemini` turns a reply text into the string it
 * hands to `json.loads`: a reply containing the marker "```json" is cut to the
 * fenced block and stripped; any other reply is parsed as it is.
 */
module Fence {
  import opened Wrappers
  import opened Text

  const JsonFence: string := "```json"
  const CodeFence: string := "```"

  /**
   * `result.split("```json")[1].split("```")[0].strip()` when the marker is
   * present, the reply itself otherwise.
   */
  function ParserInput(reply: string): (r: string)
    ensures !Contains(reply, JsonFence) ==> r == reply
    ensures Contains(reply, JsonFence) ==> Stripped(r) && !Contains(r, CodeFence)
  {
    if Contains(reply, JsonFence) then
      IndexOfContains(reply, JsonFence);
      var block := Split(Split(reply, JsonFence)[1], CodeFence)[0];
      SplitPiecesAvoid(Split(reply, JsonFence)[1], CodeFence);
      StripAvoids(block, CodeFence);
      Strip(block)
    else
      reply
  }

  /** Stripping cannot create an occurrence that was not there. */
  lemma StripAvoids(s: string, p: string)
    requires !Contains(s, p)
    ensures !Contains(Strip(s), p)
  {
    var l := TrimStart(s);
    SliceAvoids(s, |s| - |l|, |s|, p);
    assert s[|s| - |l|..|s|] == l;
    var r := TrimEnd(l);
    SliceAvoids(l, 0, |r|, p);
    assert l[0..|r|] == r;
  }

  /** The text that follows the first "```json" of a reply. */
  function AfterJsonFence(reply: string): string
    requires Contains(reply, JsonFence)
  {
    IndexOfContains(reply, JsonFence);
    reply[IndexOf(reply, JsonFence).value + |JsonFence|..]
  }

  /** `s` up to its first "```", or all of `s` when there is none. */
  function UpToCodeFence(s: string): (r: string)
    ensures !Contains(r, CodeFence)
  {
    match IndexOf(s, CodeFence)
    case Some(k) =>
      assert !Contains(s[..k], CodeFence) by {
        if Contains(s[..k], CodeFence) {
          var j: nat :| j <= k && OccursAt(s[..k], CodeFence, j);
          OccursInSlice(s, 0, k, CodeFence, j);
          assert false;
        }
      }
      s[..k]
    case None =>
      IndexOfContains(s, CodeFence);
      s
  }

  /** The first piece of a split is the text up to the first separator. */
  lemma FirstPiece(s: string, sep: string)
    requires sep != []
    ensures Split(s, sep)[0] == (match IndexOf(s, sep) case Some(k) => s[..k] case None => s)
  {
  }

  /** Occurrences that end inside a prefix are the same in the prefix and the whole. */
  lemma PrefixOccurs(s: string, n: nat, p: string, k: nat)
    requires k + |p| <= n <= |s|
    ensures OccursAt(s[..n], p, k) <==> OccursAt(s, p, k)
  {
    assert s[..n][k..k + |p|] == s[k..k + |p|];
  }

  /**
   * The parser receives the text after the first "```json" up to the next
   * "```" (or to the end), stripped — provided that "```" does not start one
   * or two backticks before the next "```json" (see `FenceClearOfMarker`).
   */
  lemma FencedReplyUpToNextFence(reply: string)
    requires Contains(reply, JsonFence)
    requires FenceClearOfMarker(AfterJsonFence(reply))
    ensures ParserInput(reply) == Strip(UpToCodeFence(AfterJsonFence(reply)))
  {
    TwoSplits(reply);
    CutBeforeMarker(AfterJsonFence(reply));
  }

  /**
   * When the next "```" starts one or two backticks before the next
   * "```json", the source's two splits keep those backticks, so the parser
   * input differs from "up to the next fence".
   */
  lemma FenceClashDiffers(reply: string)
    requires Contains(reply, JsonFence)
    requires !FenceClearOfMarker(AfterJsonFence(reply))
    ensures ParserInput(reply) != Strip(UpToCodeFence(AfterJsonFence(reply)))
  {
    TwoSplits(reply);
    ClashDiffers(AfterJsonFence(reply));
  }

  /** In a clash, the two splits keep more than the text up to the next fence. */
  lemma ClashDiffers(s: string)
    requires !FenceClearOfMarker(s)
    ensures |Strip(UpToCodeFence(s))| < |Strip(Split(Split(s, JsonFence)[0], CodeFence)[0])|
  {
    ClashOffsets(s);
    var j, f := IndexOf(s, JsonFence).value, IndexOf(s, CodeFence).value;
    ClashPieces(s, j, f);
    var t := s[..j];
    StripLonger(t, f);
  }

  /** The parser input of a fenced reply, in terms of the text after the marker. */
  lemma TwoSplits(reply: string)
    requires Contains(reply, JsonFence)
    ensures ParserInput(reply) == Strip(Split(Split(AfterJsonFence(reply), JsonFence)[0], CodeFence)[0])
  {
    IndexOfContains(reply, JsonFence);
    SplitAt(reply, JsonFence, IndexOf(reply, JsonFence).value);
  }

  /** A clash: the first "```" starts one or two characters before the first "```json". */
  lemma ClashOffsets(s: string)
    requires !FenceClearOfMarker(s)
    ensures IndexOf(s, JsonFence).Some? && IndexOf(s, CodeFence).Some?
    ensures IndexOf(s, CodeFence).value < IndexOf(s, JsonFence).value < IndexOf(s, CodeFence).value + |CodeFence|
  {
    MarkerStartsWithFence(s, IndexOf(s, JsonFence).value);
  }

  /**
   * In a clash the two splits cut at the "```json" and keep backticks at
   * both ends of the kept backtick run, where "up to the next fence" cuts at
   * the "```".
   */
  lemma ClashPieces(s: string, j: nat, f: nat)
    requires IndexOf(s, JsonFence) == Some(j) && IndexOf(s, CodeFence) == Some(f)
    requires f < j < f + |CodeFence|
    ensures Split(Split(s, JsonFence)[0], CodeFence)[0] == s[..j]
    ensures UpToCodeFence(s) == s[..j][..f]
    ensures s[..j][f] == '`' && s[..j][j - 1] == '`'
  {
    FirstPiece(s, JsonFence);
    forall k: nat
      ensures !OccursAt(s[..j], CodeFence, k)
    {
      if k + 3 <= j {
        PrefixOccurs(s, j, CodeFence, k);
      }
    }
    SplitWithout(s[..j], CodeFence);
    OccurrenceChars(s, CodeFence, f);
    assert s[..j][..f] == s[..f];
  }

  /**
   * Keeping a backtick tail makes the stripped text longer: `t` stripped is
   * longer than its first `f` characters stripped, when `t[f]` and the last
   * character of `t` are backticks, which are not whitespace.
   */
  lemma StripLonger(t: string, f: nat)
    requires f < |t|
    requires t[f] == '`' && t[|t| - 1] == '`'
    ensures |Strip(t[..f])| < |Strip(t)|
  {
    var l := TrimStart(t);
    var d := |t| - |l|;
    assert d <= f;
    assert l[|l| - 1] == t[|t| - 1];
    assert |Strip(t)| == |l|;
    var u := t[..f];
    var m := TrimStart(u);
    var e := |u| - |m|;
    assert m != [] ==> m[0] == t[e];
    assert d <= e;
  }

  /** The parser input is "up to the next fence" exactly when the fence clears the next marker. */
  lemma UpToNextFenceIff(reply: string)
    requires Contains(reply, JsonFence)
    ensures ParserInput(reply) == Strip(UpToCodeFence(AfterJsonFence(reply)))
        <==> FenceClearOfMarker(AfterJsonFence(reply))
  {
    if FenceClearOfMarker(AfterJsonFence(reply)) {
      FencedReplyUpToNextFence(reply);
    } else {
      FenceClashDiffers(reply);
    }
  }

  /** Without a run of four backticks after the marker, the fence always clears it. */
  lemma NoBacktickRunIsClear(s: string)
    requires !Contains(s, "````")
    ensures FenceClearOfMarker(s)
  {
    match IndexOf(s, JsonFence) {
      case None =>
      case Some(j) =>
        MarkerStartsWithFence(s, j);
        IndexOfContains(s, CodeFence);
        NoOverlappingFences(s, IndexOf(s, CodeFence).value, j);
    }
  }

  /**
   * After the first "```json", the first "```" either starts the next
   * "```json" or ends before it.
   */
  predicate FenceClearOfMarker(s: string) {
    match IndexOf(s, JsonFence)
    case None => true
    case Some(j) =>
      match IndexOf(s, CodeFence)
      case None => false
      case Some(f) => f == j || f + |CodeFence| <= j
  }

  /** Every "```json" starts with a "```". */
  lemma MarkerStartsWithFence(s: string, j: nat)
    requires OccursAt(s, JsonFence, j)
    ensures OccursAt(s, CodeFence, j)
  {
    assert s[j..j + 3] == s[j..j + 7][..3];
  }

  /**
   * Cutting at the next "```json" and then at the next "```" is cutting at the
   * next "```", when the two do not overlap.
   */
  lemma CutBeforeMarker(s: string)
    requires FenceClearOfMarker(s)
    ensures Split(Split(s, JsonFence)[0], CodeFence)[0] == UpToCodeFence(s)
  {
    var t := Split(s, JsonFence)[0];
    FirstPiece(s, JsonFence);
    FirstPiece(t, CodeFence);
    match IndexOf(s, JsonFence)
    case None =>
    case Some(j) =>
      assert t == s[..j];
      var f := IndexOf(s, CodeFence).value;
      if f == j {
        forall k: nat
          ensures !OccursAt(t, CodeFence, k)
        {
          if k + 3 <= j {
            PrefixOccurs(s, j, CodeFence, k);
          }
        }
      } else {
        PrefixOccurs(s, j, CodeFence, f);
        forall k: nat | k < f
          ensures !OccursAt(t, CodeFence, k)
        {
          PrefixOccurs(s, j, CodeFence, k);
        }
        LeftmostOccurrence(t, CodeFence, f);
        assert t[..f] == s[..f];
      }
  }

  /** Two occurrences of "```" less than three apart make a run of four backticks. */
  lemma NoOverlappingFences(s: string, f: nat, j: nat)
    requires OccursAt(s, CodeFence, f) && OccursAt(s, CodeFence, j)
    requires f <= j
    requires !Contains(s, "````")
    ensures f == j || f + 3 <= j
  {
    if f < j < f + 3 {
      assert s[f + 3] == s[j..j + 3][f + 3 - j];
      assert s[f..f + 4] == s[f..f + 3] + [s[f + 3]];
      assert OccursAt(s, "````", f);
      assert false;
    }
  }

  /** The first "```json" after text without one is the one appended. */
  lemma MarkerFirstAt(pre: string, rest: string)
    requires !Contains(pre, JsonFence)
    ensures IndexOf(pre + JsonFence + rest, JsonFence) == Some(|pre|)
  {
    var x := pre + JsonFence + rest;
    assert x[|pre|..|pre| + 7] == JsonFence;
    assert x[..|pre|] == pre;
    forall j: nat | j < |pre|
      ensures !OccursAt(x, JsonFence, j)
    {
      if j + 7 <= |pre| {
        PrefixOccurs(x, |pre|, JsonFence, j);
      } else {
        assert x[|pre|] == '`' && x[|pre| + 1] == '`' && x[|pre| + 2] == '`';
        assert forall k :: 3 <= k < 7 ==> JsonFence[k] != '`';
        if j + 3 > |pre| {
          assert x[j..j + 7][3] != JsonFence[3];
        } else {
          assert x[j..j + 7][|pre| - j] != JsonFence[|pre| - j];
        }
      }
    }
    LeftmostOccurrence(x, JsonFence, |pre|);
  }

  /**
   * A reply with prose around one fenced block: the parser receives the
   * block, stripped, and none of the prose — as long as the prose before it
   * has no marker of its own and no backtick touches the closing fence.
   */
  lemma FencedBlockExtracted(prose: string, block: string, trailer: string)
    requires !Contains(prose, JsonFence)
    requires !Contains(block, CodeFence) && !EndsWith(block, "`")
    requires !StartsWith(trailer, "`")
    ensures ParserInput(prose + JsonFence + block + CodeFence + trailer) == Strip(block)
  {
    var s := block + CodeFence + trailer;
    var reply := prose + JsonFence + s;
    assert reply == prose + JsonFence + block + CodeFence + trailer;
    MarkerFirstAt(prose, s);
    IndexOfContains(reply, JsonFence);
    SplitAt(reply, JsonFence, |prose|);
    assert AfterJsonFence(reply) == s;
    BlockEndsAtFence(block, trailer);
    BlockClearOfMarker(block, trailer);
    CutBeforeMarker(s);
  }

  /** In block + "```" + trailer the block ends at the first fence. */
  lemma BlockEndsAtFence(block: string, trailer: string)
    requires !Contains(block, CodeFence) && !EndsWith(block, "`")
    ensures IndexOf(block + CodeFence + trailer, CodeFence) == Some(|block|)
    ensures UpToCodeFence(block + CodeFence + trailer) == block
  {
    var s := block + CodeFence + trailer;
    var b := |block|;
    assert s[b..b + 3] == CodeFence;
    assert s[..b] == block;
    forall k: nat | k < b
      ensures !OccursAt(s, CodeFence, k)
    {
      if k + 3 <= b {
        PrefixOccurs(s, b, CodeFence, k);
      } else {
        assert block[b - 1..] == [block[b - 1]];
        assert s[b - 1] != '`';
        assert s[k..k + 3][b - 1 - k] != CodeFence[b - 1 - k];
      }
    }
    LeftmostOccurrence(s, CodeFence, b);
  }

  /** In block + "```" + trailer, no "```json" overlaps the closing fence. */
  lemma BlockClearOfMarker(block: string, trailer: string)
    requires !Contains(block, CodeFence) && !EndsWith(block, "`")
    requires !StartsWith(trailer, "`")
    ensures FenceClearOfMarker(block + CodeFence + trailer)
  {
    var s := block + CodeFence + trailer;
    var b := |block|;
    BlockEndsAtFence(block, trailer);
    match IndexOf(s, JsonFence)
    case None =>
    case Some(j) =>
      MarkerStartsWithFence(s, j);
      OccurrenceChars(s, CodeFence, j);
      assert |trailer| > 0 ==> s[b + 3] != '`' by {
        if |trailer| > 0 {
          assert trailer[..1] == [trailer[0]];
        }
      }
  }

  /**
   * The smallest reply where the source's two-stage split differs from "up
   * to the next fence": after the marker, "````json" is cut before the second
   * marker and keeps a lone backtick, where the next "```" leaves nothing.
   */
  lemma FourBacktickRun()
    ensures ParserInput("```json````json") == "`"
    ensures UpToCodeFence(AfterJsonFence("```json````json")) == ""
  {
    var reply := "```json````json";
    assert OccursAt(reply, JsonFence, 0);
    LeftmostOccurrence(reply, JsonFence, 0);
    IndexOfContains(reply, JsonFence);
    SplitAt(reply, JsonFence, 0);
    var s := "````json";
    assert reply[|JsonFence|..] == s;
    assert AfterJsonFence(reply) == s;
    assert Split(reply, JsonFence)[1] == Split(s, JsonFence)[0];
    TwoStageCut();
    FenceFirst();
  }

  /** After the marker, the second split keeps the lone backtick before the next "```json". */
  lemma TwoStageCut()
    ensures Strip(Split(Split("````json", JsonFence)[0], CodeFence)[0]) == "`"
  {
    var s := "````json";
    assert OccursAt(s, JsonFence, 1);
    assert !OccursAt(s, JsonFence, 0) by {
      assert s[0..7][3] == '`';
    }
    LeftmostOccurrence(s, JsonFence, 1);
    SplitAt(s, JsonFence, 1);
    var t := s[..1];
    assert t == "`";
    SplitWithout(t, CodeFence);
    assert Strip(t) == t by {
      StripPadded([], t, []);
      assert [] + t + [] == t;
    }
  }

  /** After the marker, the next "```" starts right away. */
  lemma FenceFirst()
    ensures UpToCodeFence("````json") == ""
  {
    var s := "````json";
    assert OccursAt(s, CodeFence, 0);
    LeftmostOccurrence(s, CodeFence, 0);
  }
}
