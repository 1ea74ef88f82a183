/**
 * The text sanitiser applied to the first chapter: every match of the pattern
 * `<[^>]+>` is removed, scanning left to right as a global replace does, and
 * the result is cut to its first 5000 characters.  No entity decoding and no
 * whitespace folding take place.
 */
module Sanitizer {
  import opened Wrappers

  /** The number of characters kept by the preview. */
  const PreviewLength: nat := 5000

  /** A match of `<[^>]+>`: '<', one or more characters other than '>', then '>'. */
  predicate IsTag(t: string)
  {
    |t| >= 3 && t[0] == '<' && t[|t| - 1] == '>' &&
    forall k :: 1 <= k < |t| - 1 ==> t[k] != '>'
  }

  /** Text in which the pattern matches nowhere. */
  ghost predicate TagFree(t: string)
  {
    forall i, j :: 0 <= i < j <= |t| ==> !IsTag(t[i..j])
  }

  /** The index of the first '>' at or after `from`. */
  function IndexOfClose(s: string, from: nat): (r: Option<nat>)
    requires from <= |s|
    ensures r.Some? ==> from <= r.value < |s| && s[r.value] == '>'
    ensures r.Some? ==> forall k :: from <= k < r.value ==> s[k] != '>'
    ensures r.None? ==> forall k :: from <= k < |s| ==> s[k] != '>'
    decreases |s| - from
  {
    if from == |s| then None
    else if s[from] == '>' then Some(from)
    else IndexOfClose(s, from + 1)
  }

  /**
   * The length of the match of `<[^>]+>` that starts at the head of `s`, if
   * there is one: the pattern runs to the first '>', which must not be the
   * character right after '<'.
   */
  function TagLength(s: string): (r: Option<nat>)
    ensures r.Some? ==> r.value <= |s| && IsTag(s[..r.value])
    ensures r.None? ==> forall n :: 0 <= n <= |s| ==> !IsTag(s[..n])
  {
    if |s| > 0 && s[0] == '<' then
      match IndexOfClose(s, 1)
      case Some(j) => if j >= 2 then Some(j + 1) else None
      case None => None
    else None
  }

  /** `text.replace(/<[^>]+>/g, "")`. */
  function StripTags(s: string): (r: string)
    ensures |r| <= |s|
    decreases |s|
  {
    if |s| == 0 then ""
    else
      match TagLength(s)
      case Some(n) => StripTags(s[n..])
      case None => [s[0]] + StripTags(s[1..])
  }

  /** `text.substring(0, 5000)`. */
  function Truncate(t: string): string
  {
    if |t| <= PreviewLength then t else t[..PreviewLength]
  }

  /** The preview of a chapter: tags stripped, then cut to 5000 characters. */
  function Sanitize(raw: string): (r: string)
    ensures |r| == if |StripTags(raw)| <= PreviewLength then |StripTags(raw)| else PreviewLength
    ensures r == StripTags(raw)[..|r|]
  {
    Truncate(StripTags(raw))
  }

  // ---------------------------------------------------------------------
  // What stripping leaves behind

  lemma TagFreeAfter(c: char, rest: string)
    requires TagFree(rest)
    requires c != '<' || (|rest| > 0 && rest[0] == '>') || forall k :: 0 <= k < |rest| ==> rest[k] != '>'
    ensures TagFree([c] + rest)
  {
    var t := [c] + rest;
    forall i, j | 0 <= i < j <= |t|
      ensures !IsTag(t[i..j])
    {
      var u := t[i..j];
      if i > 0 {
        assert u == rest[i - 1..j - 1];
      } else if c != '<' {
        assert u[0] != '<';
      } else if |rest| > 0 && rest[0] == '>' {
        if |u| >= 3 {
          assert u[1] == '>';
        }
      } else if |u| >= 3 {
        assert u[|u| - 1] == rest[j - 2];
      }
    }
  }

  /** Stripping brings in no character that the text does not already hold. */
  lemma {:induction false} StripKeepsOut(s: string, c: char)
    requires forall k :: 0 <= k < |s| ==> s[k] != c
    ensures forall k :: 0 <= k < |StripTags(s)| ==> StripTags(s)[k] != c
    decreases |s|
  {
    if |s| > 0 {
      match TagLength(s)
      case Some(n) =>
        StripKeepsOut(s[n..], c);
      case None =>
        StripKeepsOut(s[1..], c);
    }
  }

  /** No match of the pattern survives the global replace. */
  lemma {:induction false} StripLeavesNoTag(s: string)
    ensures TagFree(StripTags(s))
    decreases |s|
  {
    if |s| > 0 {
      match TagLength(s)
      case Some(n) =>
        StripLeavesNoTag(s[n..]);
      case None =>
        var rest := StripTags(s[1..]);
        StripLeavesNoTag(s[1..]);
        if s[0] == '<' {
          match IndexOfClose(s, 1)
          case None =>
            StripKeepsOut(s[1..], '>');
          case Some(j) =>
            assert j == 1;
            assert TagLength(s[1..]).None?;
            assert rest == [s[1]] + StripTags(s[2..]) by {
              assert s[1..][1..] == s[2..];
            }
        }
        TagFreeAfter(s[0], rest);
    }
  }

  /** Text in which the pattern matches nowhere is left as it is. */
  lemma {:induction false} StripTagFree(t: string)
    requires TagFree(t)
    ensures StripTags(t) == t
    decreases |t|
  {
    if |t| > 0 {
      forall n | 0 < n <= |t|
        ensures !IsTag(t[..n])
      {
        assert t[..n] == t[0..n];
      }
      assert TagLength(t).None?;
      var tail := t[1..];
      forall i, j | 0 <= i < j <= |tail|
        ensures !IsTag(tail[i..j])
      {
        assert tail[i..j] == t[i + 1..j + 1];
      }
      StripTagFree(tail);
      assert [t[0]] + tail == t;
    }
  }

  /** Stripping is a fixed point exactly on tag-free text. */
  lemma StripFixedPoint(t: string)
    ensures StripTags(t) == t <==> TagFree(t)
  {
    if TagFree(t) {
      StripTagFree(t);
    } else {
      StripLeavesNoTag(t);
    }
  }

  /** Stripping twice is stripping once. */
  lemma StripIdempotent(s: string)
    ensures StripTags(StripTags(s)) == StripTags(s)
  {
    StripLeavesNoTag(s);
    StripTagFree(StripTags(s));
  }

  /** Text without '<' is only truncated. */
  lemma SanitizeWithoutMarkup(s: string)
    requires forall k :: 0 <= k < |s| ==> s[k] != '<'
    ensures Sanitize(s) == if |s| <= PreviewLength then s else s[..PreviewLength]
  {
    forall i, j | 0 <= i < j <= |s|
      ensures !IsTag(s[i..j])
    {
      assert s[i..j][0] == s[i];
    }
    StripTagFree(s);
  }

  /** `t` is `s` with some characters deleted and the others kept in their order. */
  predicate IsDeletionOf(t: string, s: string)
    decreases |s|
  {
    if |s| == 0 then |t| == 0
    else (|t| > 0 && t[0] == s[0] && IsDeletionOf(t[1..], s[1..])) || IsDeletionOf(t, s[1..])
  }

  /** Deleting a whole prefix is a deletion too. */
  lemma {:induction false} DeletionDropPrefix(t: string, s: string, n: nat)
    requires n <= |s| && IsDeletionOf(t, s[n..])
    ensures IsDeletionOf(t, s)
    decreases n
  {
    if n == 0 {
      assert s[0..] == s;
    } else {
      assert s[1..][n - 1..] == s[n..];
      DeletionDropPrefix(t, s[1..], n - 1);
    }
  }

  /** Stripping only deletes characters: what is left keeps its order. */
  lemma {:induction false} StripDeletes(s: string)
    ensures IsDeletionOf(StripTags(s), s)
    decreases |s|
  {
    if |s| > 0 {
      match TagLength(s)
      case Some(n) =>
        assert |s[..n]| >= 3;
        StripDeletes(s[n..]);
        DeletionDropPrefix(StripTags(s), s, n);
      case None =>
        StripDeletes(s[1..]);
        var t := StripTags(s);
        assert t == [s[0]] + StripTags(s[1..]);
        assert t[1..] == StripTags(s[1..]);
    }
  }

  /** A '<' with no '>' after it is not a match: text without '>' survives stripping whole. */
  lemma UnclosedSurvives(s: string)
    requires forall k :: 0 <= k < |s| ==> s[k] != '>'
    ensures StripTags(s) == s
  {
    forall i, j | 0 <= i < j <= |s|
      ensures !IsTag(s[i..j])
    {
      assert s[i..j][j - i - 1] == s[j - 1];
    }
    StripTagFree(s);
  }

  /** An empty pair `<>` is not a match: it survives, and stripping resumes after it. */
  lemma EmptyBracketsSurvive(v: string)
    ensures StripTags(['<', '>'] + v) == ['<', '>'] + StripTags(v)
  {
    var s := ['<', '>'] + v;
    assert IndexOfClose(s, 1) == Some(1);
    assert TagLength(s).None?;
    var tail := s[1..];
    assert tail == ['>'] + v;
    assert TagLength(tail).None?;
    assert tail[1..] == v;
  }

  /** The preview contains no tag, and sanitising a preview again changes nothing. */
  lemma SanitizeIdempotent(s: string)
    ensures TagFree(Sanitize(s))
    ensures Sanitize(Sanitize(s)) == Sanitize(s)
  {
    var stripped := StripTags(s);
    var r := Sanitize(s);
    StripLeavesNoTag(s);
    forall i, j | 0 <= i < j <= |r|
      ensures !IsTag(r[i..j])
    {
      assert r[i..j] == stripped[i..j];
    }
    StripTagFree(r);
  }

  // ---------------------------------------------------------------------
  // Stripping text made of repeated, closed fragments

  /**
   * Text whose stripping does not depend on what follows it: every '<' that
   * is kept is either followed by '>' at once or belongs to a complete match.
   */
  ghost predicate SelfContained(u: string)
    decreases |u|
  {
    |u| == 0 ||
    match TagLength(u)
    case Some(n) => SelfContained(u[n..])
    case None => (u[0] != '<' || (|u| >= 2 && u[1] == '>')) && SelfContained(u[1..])
  }

  lemma TagLengthExtends(u: string, v: string)
    requires |u| > 0
    requires TagLength(u).Some? || u[0] != '<' || (|u| >= 2 && u[1] == '>')
    ensures TagLength(u + v) == TagLength(u)
  {
    if u[0] == '<' {
      var uv := u + v;
      assert uv[0] == '<';
      if |u| >= 2 && u[1] == '>' {
        assert uv[1] == '>';
        assert IndexOfClose(uv, 1) == Some(1);
      } else {
        var j := IndexOfClose(u, 1).value;
        assert uv[j] == '>';
        assert forall k :: 1 <= k < j ==> uv[k] == u[k];
        assert IndexOfClose(uv, 1) == Some(j);
      }
    }
  }

  /** Stripping distributes over a self-contained prefix. */
  lemma {:induction false} StripConcat(u: string, v: string)
    requires SelfContained(u)
    ensures StripTags(u + v) == StripTags(u) + StripTags(v)
    decreases |u|
  {
    if |u| == 0 {
      assert u + v == v;
    } else {
      TagLengthExtends(u, v);
      match TagLength(u)
      case Some(n) =>
        assert (u + v)[n..] == u[n..] + v;
        StripConcat(u[n..], v);
      case None =>
        assert (u + v)[0] == u[0];
        assert (u + v)[1..] == u[1..] + v;
        StripConcat(u[1..], v);
    }
  }

  /** `n` copies of `u`, one after the other. */
  function Repeat(u: string, n: nat): (r: string)
    ensures |r| == n * |u|
  {
    if n == 0 then "" else u + Repeat(u, n - 1)
  }

  lemma {:induction false} RepeatKeepsOut(u: string, n: nat, c: char)
    requires forall k :: 0 <= k < |u| ==> u[k] != c
    ensures forall k :: 0 <= k < |Repeat(u, n)| ==> Repeat(u, n)[k] != c
  {
    if n > 0 {
      RepeatKeepsOut(u, n - 1, c);
    }
  }

  lemma {:induction false} StripRepeat(u: string, n: nat)
    requires SelfContained(u)
    ensures StripTags(Repeat(u, n)) == Repeat(StripTags(u), n)
  {
    if n > 0 {
      StripConcat(u, Repeat(u, n - 1));
      StripRepeat(u, n - 1);
    }
  }

  lemma StripTagThen(tag: string, v: string)
    requires IsTag(tag)
    ensures StripTags(tag + v) == StripTags(v)
    ensures SelfContained(v) ==> SelfContained(tag + v)
  {
    var tv := tag + v;
    var j := |tag| - 1;
    assert tv[0] == '<' && tv[j] == '>';
    assert forall k :: 1 <= k < j ==> tv[k] == tag[k];
    assert IndexOfClose(tv, 1) == Some(j);
    assert TagLength(tv) == Some(|tag|);
    assert tv[|tag|..] == v;
  }

  lemma {:induction false} StripTextThen(w: string, v: string)
    requires forall k :: 0 <= k < |w| ==> w[k] != '<'
    ensures StripTags(w + v) == w + StripTags(v)
    ensures SelfContained(v) ==> SelfContained(w + v)
    decreases |w|
  {
    if |w| == 0 {
      assert w + v == v;
    } else {
      var wv := w + v;
      assert wv[0] == w[0] && wv[1..] == w[1..] + v;
      assert TagLength(wv).None?;
      StripTextThen(w[1..], v);
      assert StripTags(wv) == [w[0]] + (w[1..] + StripTags(v));
      assert [w[0]] + w[1..] == w;
    }
  }

  /** Markup `<b>text</b></p>` is self-contained and strips to its text. */
  lemma InnerStrips(b: string, t: string, cb: string, cp: string)
    requires IsTag(b) && IsTag(cb) && IsTag(cp)
    requires forall k :: 0 <= k < |t| ==> t[k] != '<'
    ensures SelfContained(b + (t + (cb + cp)))
    ensures StripTags(b + (t + (cb + cp))) == t
  {
    assert SelfContained("") && StripTags("") == "";
    StripTagThen(cp, "");
    assert cp + "" == cp;
    StripTagThen(cb, cp);
    assert StripTags(cb + cp) == "" && SelfContained(cb + cp);
    StripTextThen(t, cb + cp);
    assert t + "" == t;
    StripTagThen(b, t + (cb + cp));
  }

  /** A paragraph `<p>text<b>text</b></p>` is self-contained and strips to its two texts. */
  lemma ParagraphStrips(p: string, t1: string, b: string, t2: string, cb: string, cp: string)
    requires IsTag(p) && IsTag(b) && IsTag(cb) && IsTag(cp)
    requires forall k :: 0 <= k < |t1| ==> t1[k] != '<'
    requires forall k :: 0 <= k < |t2| ==> t2[k] != '<'
    ensures SelfContained(p + (t1 + (b + (t2 + (cb + cp)))))
    ensures StripTags(p + (t1 + (b + (t2 + (cb + cp))))) == t1 + t2
  {
    var inner := b + (t2 + (cb + cp));
    InnerStrips(b, t2, cb, cp);
    StripTextThen(t1, inner);
    StripTagThen(p, t1 + inner);
  }

  /**
   * A paragraph `<p>text<b>text</b></p>` repeated past the preview length
   * gives a preview of exactly 5000 characters, none of them an angle bracket.
   */
  lemma SanitizeRepeatedParagraph(
    p: string, t1: string, b: string, t2: string, cb: string, cp: string, n: nat)
    requires IsTag(p) && IsTag(b) && IsTag(cb) && IsTag(cp)
    requires forall k :: 0 <= k < |t1| ==> t1[k] != '<' && t1[k] != '>'
    requires forall k :: 0 <= k < |t2| ==> t2[k] != '<' && t2[k] != '>'
    requires n * (|t1| + |t2|) >= PreviewLength
    ensures var r := Sanitize(Repeat(p + (t1 + (b + (t2 + (cb + cp)))), n));
            |r| == PreviewLength &&
            forall k :: 0 <= k < |r| ==> r[k] != '<' && r[k] != '>'
  {
    var u := p + (t1 + (b + (t2 + (cb + cp))));
    var plain := t1 + t2;
    ParagraphStrips(p, t1, b, t2, cb, cp);
    StripRepeat(u, n);
    var text := Repeat(plain, n);
    assert StripTags(Repeat(u, n)) == text;
    assert |text| >= PreviewLength by {
      assert |text| == n * |plain|;
      assert |plain| == |t1| + |t2|;
    }
    assert forall k :: 0 <= k < |plain| ==> plain[k] != '<' && plain[k] != '>' by {
      forall k | 0 <= k < |plain|
        ensures plain[k] != '<' && plain[k] != '>'
      {
        if k >= |t1| {
          assert plain[k] == t2[k - |t1|];
        }
      }
    }
    RepeatKeepsOut(plain, n, '<');
    RepeatKeepsOut(plain, n, '>');
  }

  /** One paragraph of sample markup, eleven characters of text. */
  const Sample: string := "<p>Hello <b>World</b></p>"

  /** The sample paragraph repeated at least 455 times previews as 5000 plain characters. */
  lemma SanitizeRepeatedSample(n: nat)
    requires 11 * n >= PreviewLength
    ensures var r := Sanitize(Repeat(Sample, n));
            |r| == PreviewLength &&
            forall k :: 0 <= k < |r| ==> r[k] != '<' && r[k] != '>'
  {
    assert "<p>" + ("Hello " + ("<b>" + ("World" + ("</b>" + "</p>")))) == Sample;
    SanitizeRepeatedParagraph("<p>", "Hello ", "<b>", "World", "</b>", "</p>", n);
  }
}
