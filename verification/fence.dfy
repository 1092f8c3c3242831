/**
 * Fence stripping of the language model's reply: the reply is stripped, a
 * "```json" fence is looked for first and a bare "```" fence second, and the
 * enclosed text is stripped again.
 */
module Fences {
  import opened Text

  /** A bare code fence. */
  const Backticks := "```"

  /** A code fence tagged with the JSON language hint. */
  const JsonFence := "```json"

  predicate EndsWithBacktick(s: string) {
    |s| > 0 && s[|s| - 1] == '`'
  }

  /**
   * The cleaning step of `parse_resume_from_image`: `t.split(f)[1].split("```")[0]`,
   * stripped, for the first fence `f` found, tagged before bare; the stripped reply
   * when there is no fence at all.
   */
  function StripFence(reply: string): string
  {
    var text := Trim(reply);
    if Contains(text, JsonFence) then
      Trim(Before(Before(After(text, JsonFence), JsonFence), Backticks))
    else if Contains(text, Backticks) then
      Trim(Before(Before(After(text, Backticks), Backticks), Backticks))
    else
      text
  }

  lemma JsonFenceIsFence(s: string, k: nat)
    requires OccursAt(s, JsonFence, k)
    ensures OccursAt(s, Backticks, k)
  {
    assert s[k..k + 3] == s[k..k + 7][..3];
  }

  lemma NoJsonFenceWithoutFence(s: string)
    requires !Contains(s, Backticks)
    ensures !Contains(s, JsonFence)
  {
    forall k: nat | k <= |s| ensures !OccursAt(s, JsonFence, k) {
      if k + 7 <= |s| {
        assert !OccursAt(s, Backticks, k);
        assert s[k..k + 3] == s[k..k + 7][..3];
      }
    }
  }

  /** The text between the first fence `f` of `text` and the fence that closes it. */
  lemma PiecesContained(text: string, f: string)
    requires f == JsonFence || f == Backticks
    requires Contains(text, f)
    ensures var c := Before(Before(After(text, f), f), Backticks);
      Contains(text, c) && !Contains(c, Backticks)
  {
    var a := After(text, f);
    SliceContained(text, |text| - |a|, |text|);
    assert text[|text| - |a|..|text|] == a;
    var b := Before(a, f);
    SliceContained(a, 0, |b|);
    assert a[0..|b|] == b;
    var c := Before(b, Backticks);
    SliceContained(b, 0, |c|);
    assert b[0..|c|] == c;
    ContainsTransitive(text, a, b);
    ContainsTransitive(text, b, c);
  }

  /**
   * Whatever the reply, the result holds no "```" and is a piece of the stripped
   * reply.
   */
  lemma StripFenceIsFenceFreePiece(reply: string)
    ensures !Contains(StripFence(reply), Backticks)
    ensures Contains(Trim(reply), StripFence(reply))
  {
    var t := Trim(reply);
    if Contains(t, JsonFence) {
      PiecesContained(t, JsonFence);
      var c := Before(Before(After(t, JsonFence), JsonFence), Backticks);
      TrimContained(c);
      AbsentFromPiece(c, Trim(c), Backticks);
      ContainsTransitive(t, c, Trim(c));
    } else if Contains(t, Backticks) {
      PiecesContained(t, Backticks);
      var c := Before(Before(After(t, Backticks), Backticks), Backticks);
      TrimContained(c);
      AbsentFromPiece(c, Trim(c), Backticks);
      ContainsTransitive(t, c, Trim(c));
    } else {
      SliceContained(t, 0, |t|);
      assert t[0..|t|] == t;
    }
  }

  /** A reply with no fence is only stripped. */
  lemma StripFenceWithoutFence(reply: string)
    requires !Contains(Trim(reply), Backticks)
    ensures StripFence(reply) == Trim(reply)
  {
    NoJsonFenceWithoutFence(Trim(reply));
  }

  /**
   * No fence `f` starts inside `pre` when `pre` holds no `f` and is followed by
   * `f`. A bare fence also needs `pre` not to end in a backtick; "```json" cannot
   * overlap itself, so it needs nothing more.
   */
  lemma NoFenceInsidePrefix(pre: string, z: string, f: string, j: nat)
    requires f == JsonFence || f == Backticks
    requires !Contains(pre, f)
    requires f == Backticks ==> !EndsWithBacktick(pre)
    requires f <= z
    requires j < |pre|
    ensures !OccursAt(pre + z, f, j)
  {
    var s := pre + z;
    assert s[..|pre|] == pre;
    if j + |f| <= |pre| {
      assert !OccursAt(pre, f, j);
      assert s[j..j + |f|] == s[..|pre|][j..j + |f|];
    } else if j + |f| <= |s| {
      var m := |pre| - j;
      assert z[..|f|] == f;
      if f == Backticks {
        assert s[|pre| - 1] == pre[|pre| - 1];
        assert s[j..j + |f|][m - 1] == s[|pre| - 1] != f[m - 1];
      } else if m <= 3 {
        assert z[3 - m] == f[3 - m] == '`';
        assert s[j + 3] == z[3 - m];
        assert s[j..j + |f|][3] == s[j + 3] != f[3];
      } else {
        assert s[|pre|] == z[0] == f[0];
        assert s[j..j + |f|][m] == s[|pre|] != f[m];
      }
    }
  }

  lemma NoFenceBefore(pre: string, z: string, f: string)
    requires f == JsonFence || f == Backticks
    requires !Contains(pre, f)
    requires f == Backticks ==> !EndsWithBacktick(pre)
    requires f <= z
    ensures forall j: nat :: j < |pre| ==> !OccursAt(pre + z, f, j)
  {
    forall j: nat | j < |pre| ensures !OccursAt(pre + z, f, j) {
      NoFenceInsidePrefix(pre, z, f, j);
    }
  }

  /** In `x + "```" + w`, with `x` free of fences, the first fence closes `x`. */
  lemma BeforeFirstFence(x: string, w: string)
    requires !Contains(x, Backticks) && !EndsWithBacktick(x)
    ensures Before(x + Backticks + w, Backticks) == x
  {
    var s := x + Backticks + w;
    assert s == x + (Backticks + w);
    NoFenceBefore(x, Backticks + w, Backticks);
    assert s[|x|..|x| + 3] == Backticks;
    BeforeAtFirst(s, Backticks, |x|);
  }

  /** In `pre + f + w`, with no `f` starting inside `pre`, everything after `f` is `w`. */
  lemma AfterFirstFence(pre: string, f: string, w: string)
    requires f == JsonFence || f == Backticks
    requires !Contains(pre, f)
    requires f == Backticks ==> !EndsWithBacktick(pre)
    ensures Contains(pre + f + w, f)
    ensures After(pre + f + w, f) == w
  {
    var s := pre + f + w;
    assert s == pre + (f + w);
    NoFenceBefore(pre, f + w, f);
    assert s[|pre|..|pre| + |f|] == f;
    AfterAtFirst(s, f, |pre|);
    assert s[|pre| + |f|..] == w;
  }

  /** No "```json" starts inside `body` or just one or two places past it. */
  lemma JsonFenceNotEarly(body: string, post: string, j: nat)
    requires !Contains(body, Backticks) && !EndsWithBacktick(body)
    requires post == "" || post[0] != '`'
    requires j < |body| + 3 && j != |body|
    ensures !OccursAt(body + Backticks + post, JsonFence, j)
  {
    var a := body + Backticks + post;
    if j < |body| {
      assert a == body + (Backticks + post);
      NoFenceInsidePrefix(body, Backticks + post, Backticks, j);
      if j + 7 <= |a| {
        assert a[j..j + 3] == a[j..j + 7][..3];
      }
    } else if j > |body| && j + 7 <= |a| {
      var d := |body| + 3 - j;
      assert JsonFence[d] == '`';
      assert a[j..j + 7][d] == a[|body| + 3] == post[0];
    }
  }

  /**
   * The body of a closed fence: in `body + "```" + post` the first "```" closes
   * `body`, also after a first cut at a later "```json".
   */
  lemma ClosedBody(body: string, post: string)
    requires !Contains(body, Backticks) && !EndsWithBacktick(body)
    requires post == "" || post[0] != '`'
    ensures Before(Before(body + Backticks + post, JsonFence), Backticks) == body
  {
    var a := body + Backticks + post;
    var b := Before(a, JsonFence);
    if |b| == |body| {
      assert b == body;
    } else {
      if |b| < |body| + 3 {
        JsonFenceNotEarly(body, post, |b|);
      }
      assert |b| >= |body| + 3;
      assert b == body + Backticks + b[|body| + 3..];
      BeforeFirstFence(body, b[|body| + 3..]);
    }
  }

  /**
   * A "```json" fence is found before any bare fence: when the stripped reply is
   * `pre + "```json" + body + "```" + post`, with no "```json" in `pre` (which may
   * hold bare fences), the result is the stripped body.
   */
  lemma StripFenceTagged(reply: string, pre: string, body: string, post: string)
    requires Trim(reply) == pre + JsonFence + body + Backticks + post
    requires !Contains(pre, JsonFence)
    requires !Contains(body, Backticks) && !EndsWithBacktick(body)
    requires post == "" || post[0] != '`'
    ensures StripFence(reply) == Trim(body)
  {
    var t := Trim(reply);
    var w := body + Backticks + post;
    assert t == pre + JsonFence + w;
    AfterFirstFence(pre, JsonFence, w);
    ClosedBody(body, post);
  }

  /**
   * With no "```json" anywhere, the first two bare fences enclose the result:
   * `pre + "```" + body + "```" + post` gives the stripped body.
   */
  lemma StripFenceBare(reply: string, pre: string, body: string, post: string)
    requires Trim(reply) == pre + Backticks + body + Backticks + post
    requires !Contains(Trim(reply), JsonFence)
    requires !Contains(pre, Backticks) && !EndsWithBacktick(pre)
    requires !Contains(body, Backticks) && !EndsWithBacktick(body)
    ensures StripFence(reply) == Trim(body)
  {
    var t := Trim(reply);
    var w := body + Backticks + post;
    assert t == pre + Backticks + w;
    AfterFirstFence(pre, Backticks, w);
    BeforeFirstFence(body, post);
  }

  /** An unclosed "```json" fence yields everything after it, stripped. */
  lemma StripFenceTaggedUnclosed(reply: string, pre: string, rest: string)
    requires Trim(reply) == pre + JsonFence + rest
    requires !Contains(pre, JsonFence)
    requires !Contains(rest, Backticks)
    ensures StripFence(reply) == Trim(rest)
  {
    AfterFirstFence(pre, JsonFence, rest);
    NoJsonFenceWithoutFence(rest);
  }

  /** An unclosed bare fence yields everything after it, stripped. */
  lemma StripFenceBareUnclosed(reply: string, pre: string, rest: string)
    requires Trim(reply) == pre + Backticks + rest
    requires !Contains(Trim(reply), JsonFence)
    requires !Contains(pre, Backticks) && !EndsWithBacktick(pre)
    requires !Contains(rest, Backticks)
    ensures StripFence(reply) == Trim(rest)
  {
    AfterFirstFence(pre, Backticks, rest);
  }

  /** No bare fence starts at `k` in a fence-free text wrapped in line breaks. */
  lemma LineWrappedAt(x: string, k: nat)
    requires !Contains(x, Backticks)
    ensures !OccursAt("\n" + x + "\n", Backticks, k)
  {
    var s := "\n" + x + "\n";
    if k + 3 <= |s| {
      if k == 0 {
        assert s[0] == '\n';
        assert s[k..k + 3][0] == s[0];
      } else if k + 3 == |s| {
        assert s[|s| - 1] == '\n';
        assert s[k..k + 3][2] == s[|s| - 1];
      } else {
        assert !OccursAt(x, Backticks, k - 1);
        assert s[k..k + 3] == x[k - 1..k + 2];
      }
    }
  }

  /** Putting a line break on each side of a fence-free text keeps it fence-free. */
  lemma LineWrappedFenceFree(x: string)
    requires !Contains(x, Backticks)
    ensures !Contains("\n" + x + "\n", Backticks)
  {
    var s := "\n" + x + "\n";
    forall k: nat | k <= |s| ensures !OccursAt(s, Backticks, k) {
      LineWrappedAt(x, k);
    }
  }

  /**
   * A fenced reply "```json\n" + json + "\n```" cleans to exactly what the bare
   * json text cleans to.
   */
  lemma FencedJsonCleansLikeBare(json: string)
    requires !Contains(json, Backticks)
    ensures StripFence(JsonFence + "\n" + json + "\n" + Backticks) == StripFence(json)
  {
    FencedJsonStrips(json);
    TrimPadded("\n", json, "\n");
    TrimContained(json);
    AbsentFromPiece(json, Trim(json), Backticks);
    StripFenceWithoutFence(json);
  }

  /** The fenced reply cleans to its line-wrapped body, stripped. */
  lemma FencedJsonStrips(json: string)
    requires !Contains(json, Backticks)
    ensures StripFence(JsonFence + "\n" + json + "\n" + Backticks) == Trim("\n" + json + "\n")
  {
    var body := "\n" + json + "\n";
    var reply := JsonFence + body + Backticks;
    assert JsonFence + "\n" + json + "\n" + Backticks == reply;
    assert reply[0] == '`' && reply[|reply| - 1] == '`';
    TrimWhole(reply);
    assert reply == "" + JsonFence + body + Backticks + "";
    LineWrappedFenceFree(json);
    StripFenceTagged(reply, "", body, "");
  }

  /** The tagged fence wins over an earlier bare fence. */
  lemma TaggedFenceWins(reply: string, pre: string, body: string)
    requires pre == "```\nx\n" && body == "\ny\n"
    requires reply == pre + JsonFence + body + Backticks
    ensures StripFence(reply) == "y"
  {
    assert reply[0] == pre[0] == '`';
    assert reply[|reply| - 1] == Backticks[2] == '`';
    TrimUnique(reply, 0, |reply|);
    assert reply[0..|reply|] == reply;
    assert reply == pre + JsonFence + body + Backticks + "";
    assert |pre| < |JsonFence|;
    assert !Contains(pre, JsonFence);
    assert body[0..3][0] == '\n';
    assert !Contains(body, Backticks);
    StripFenceTagged(reply, pre, body, "");
    TrimUnique(body, 1, 2);
    assert body[1..2] == "y";
  }

  /** Behind a leading tagged fence, the tagged branch cuts the rest of the reply. */
  lemma LeadingTaggedFence(reply: string, w: string)
    requires Trim(reply) == JsonFence + w
    ensures StripFence(reply) == Trim(Before(Before(w, JsonFence), Backticks))
  {
    assert Trim(reply) == "" + JsonFence + w;
    AfterFirstFence("", JsonFence, w);
  }

  /**
   * `split("```json")[1]` ends at the next "```json", so a second tagged fence that
   * follows a stray backtick cuts before the closing "```" is seen: the backtick stays.
   */
  lemma SecondJsonFenceCutsFirst(reply: string, w: string, b: string)
    requires w == "{}````json" && b == "{}`"
    requires reply == JsonFence + w
    ensures StripFence(reply) == b
  {
    assert reply[0] == '`' && reply[|reply| - 1] == 'n';
    TrimWhole(reply);
    LeadingTaggedFence(reply, w);
    SecondJsonFenceCuts(w, b);
    StrayBacktick(b);
  }

  lemma SecondJsonFenceCuts(w: string, b: string)
    requires w == "{}````json" && b == "{}`"
    ensures Before(w, JsonFence) == b
  {
    SecondJsonFenceAt(w);
    BeforeAtFirst(w, JsonFence, 3);
    assert w[..3] == b;
  }

  lemma StrayBacktick(b: string)
    requires b == "{}`"
    ensures Before(b, Backticks) == b && Trim(b) == b
  {
    assert b[0..3][0] == '{';
    assert !Contains(b, Backticks);
    TrimWhole(b);
  }

  lemma SecondJsonFenceAt(w: string)
    requires w == "{}````json"
    ensures OccursAt(w, JsonFence, 3)
    ensures forall j: nat :: j < 3 ==> !OccursAt(w, JsonFence, j)
  {
    assert w[3..10] == JsonFence;
    assert w[0..7][0] == '{' && w[1..8][0] == '}' && w[2..9][6] == 'o';
  }
}
