/**
 * The tag text of the project form: `extractTags` parses the free-text field
 * ("web / ui") into a list of tags, and the edit-mode prefill serialises a
 * record's tags back into that field by joining them with "/".
 */
module TagCodec {
  import opened JsString

  /** The character that separates tags in the tag field. */
  const Separator: char := '/'

  /** What a tag coming out of the parser looks like: non-empty, trimmed, no separator. */
  predicate IsTag(t: string) {
    t != "" && Trim(t) == t && Separator !in t
  }

  /** Every element of `tags` is a well-formed tag. */
  predicate AllTags(tags: seq<string>) {
    forall k :: 0 <= k < |tags| ==> IsTag(tags[k])
  }

  /** `.map((t) => t.trim())`: each segment trimmed, in place. */
  function TrimAll(segments: seq<string>): (r: seq<string>)
    ensures |r| == |segments|
    ensures forall k :: 0 <= k < |r| ==> r[k] == Trim(segments[k])
  {
    seq(|segments|, k requires 0 <= k < |segments| => Trim(segments[k]))
  }

  /** `.filter(Boolean)` on strings: only the empty string is falsy, so exactly those go. */
  function DropEmpty(ts: seq<string>): (r: seq<string>)
    ensures |r| <= |ts|
    ensures forall t :: t in r <==> t in ts && t != ""
  {
    if ts == [] then []
    else (if ts[0] == "" then [] else [ts[0]]) + DropEmpty(ts[1..])
  }

  /** Filtering a concatenation filters the two halves and keeps their order. */
  lemma {:induction false} DropEmptyAppend(a: seq<string>, b: seq<string>)
    ensures DropEmpty(a + b) == DropEmpty(a) + DropEmpty(b)
  {
    if a == [] {
      assert a + b == b;
    } else {
      assert (a + b)[1..] == a[1..] + b;
      DropEmptyAppend(a[1..], b);
    }
  }

  /**
   * `extractTags(input)`: split on "/", trim each segment, drop the empty ones.
   * Every tag it returns is non-empty, equal to its own trim and free of "/",
   * and there are at most one more tags than separators.
   */
  function ExtractTags(input: string): (tags: seq<string>)
    ensures AllTags(tags)
    ensures |tags| <= Occurrences(input, Separator) + 1
  {
    var segments := Split(input, Separator);
    var trimmed := TrimAll(segments);
    forall k | 0 <= k < |trimmed| ensures Separator !in trimmed[k] && Trim(trimmed[k]) == trimmed[k] {
      TrimKeepsOnly(segments[k], Separator);
    }
    var tags := DropEmpty(trimmed);
    forall k | 0 <= k < |tags| ensures IsTag(tags[k]) {
      assert tags[k] in trimmed;
    }
    tags
  }

  /** A string is a tag of the field exactly when it is the non-empty trim of one of its segments. */
  lemma ExtractTagsMembers(input: string, t: string)
    ensures t in ExtractTags(input) <==>
      t != "" && exists k :: 0 <= k < |Split(input, Separator)| && Trim(Split(input, Separator)[k]) == t
  {
    var trimmed := TrimAll(Split(input, Separator));
    if t in trimmed {
      var k :| 0 <= k < |trimmed| && trimmed[k] == t;
    }
  }

  lemma TrimAllAppend(a: seq<string>, b: seq<string>)
    ensures TrimAll(a + b) == TrimAll(a) + TrimAll(b)
  {
  }

  /** A field without "/" holds at most one tag: its trim, unless that is empty. */
  lemma ExtractTagsSegment(s: string)
    requires Separator !in s
    ensures ExtractTags(s) == if Trim(s) == "" then [] else [Trim(s)]
  {
    SplitNoSeparator(s, Separator);
    assert TrimAll([s]) == [Trim(s)];
    assert [Trim(s)][1..] == [];
  }

  /** A "/" in the field splits it into two fields parsed independently, in order. */
  lemma ExtractTagsAppend(a: string, b: string)
    ensures ExtractTags(a + [Separator] + b) == ExtractTags(a) + ExtractTags(b)
  {
    var sa, sb := Split(a, Separator), Split(b, Separator);
    SplitAppend(a, b, Separator);
    TrimAllAppend(sa, sb);
    DropEmptyAppend(TrimAll(sa), TrimAll(sb));
  }

  /** Every character of `s` is a separator or whitespace. */
  predicate IsBlank(s: string) {
    forall i :: 0 <= i < |s| ==> s[i] == Separator || IsWhitespace(s[i])
  }

  lemma BlankAppend(a: string, b: string)
    ensures IsBlank(a + [Separator] + b) <==> IsBlank(a) && IsBlank(b)
  {
    var s := a + [Separator] + b;
    if IsBlank(s) {
      forall j | 0 <= j < |a| ensures a[j] == Separator || IsWhitespace(a[j]) {
        assert s[j] == a[j];
      }
      forall j | 0 <= j < |b| ensures b[j] == Separator || IsWhitespace(b[j]) {
        assert s[|a| + 1 + j] == b[j];
      }
    }
  }

  /** The field yields no tag exactly when it is made of separators and whitespace. */
  lemma {:induction false} ExtractTagsEmptyIff(s: string)
    ensures ExtractTags(s) == [] <==> IsBlank(s)
    decreases |s|
  {
    if Separator !in s {
      ExtractTagsSegment(s);
      TrimEmptyIff(s);
    } else {
      var i :| 0 <= i < |s| && s[i] == Separator;
      var a, b := s[..i], s[i + 1..];
      assert s == a + [Separator] + b;
      ExtractTagsAppend(a, b);
      BlankAppend(a, b);
      ExtractTagsEmptyIff(a);
      ExtractTagsEmptyIff(b);
    }
  }

  /** `tags.join("/")`: the tag field that shows the list `tags`. */
  function JoinTags(tags: seq<string>): (text: string)
    ensures Occurrences(text, Separator) >= |tags| - 1
  {
    Join(tags, Separator)
  }

  /** Parsing the join of well-formed tags gives back exactly those tags, in order. */
  lemma {:induction false} ExtractJoinRoundTrip(tags: seq<string>)
    requires AllTags(tags)
    ensures ExtractTags(JoinTags(tags)) == tags
  {
    if tags == [] {
      ExtractTagsSegment("");
    } else if |tags| == 1 {
      ExtractTagsSegment(tags[0]);
    } else {
      ExtractJoinRoundTrip(tags[1..]);
      ExtractTagsSegment(tags[0]);
      ExtractTagsAppend(tags[0], JoinTags(tags[1..]));
      assert [tags[0]] + tags[1..] == tags;
    }
  }

  /** Parsing, joining and parsing again changes nothing. */
  lemma ExtractTagsIdempotent(input: string)
    ensures ExtractTags(JoinTags(ExtractTags(input))) == ExtractTags(input)
  {
    ExtractJoinRoundTrip(ExtractTags(input));
  }

  /** Distinct lists of well-formed tags are shown as distinct tag fields. */
  lemma JoinTagsInjective(a: seq<string>, b: seq<string>)
    requires AllTags(a) && AllTags(b)
    requires JoinTags(a) == JoinTags(b)
    ensures a == b
  {
    ExtractJoinRoundTrip(a);
    ExtractJoinRoundTrip(b);
  }

  /** A well-formed tag followed by "/" contributes exactly itself, in front. */
  lemma ExtractTagsConsTag(a: string, rest: string)
    requires IsTag(a)
    ensures ExtractTags(a + [Separator] + rest) == [a] + ExtractTags(rest)
  {
    ExtractTagsAppend(a, rest);
    ExtractTagsSegment(a);
  }

  /** A whitespace-only segment followed by "/" contributes nothing. */
  lemma ExtractTagsConsBlank(w: string, rest: string)
    requires AllWhitespace(w) && Separator !in w
    ensures ExtractTags(w + [Separator] + rest) == ExtractTags(rest)
  {
    ExtractTagsAppend(w, rest);
    ExtractTagsSegment(w);
    TrimEmptyIff(w);
  }

  /**
   * Blank segments vanish: with tags `a` and `b` and a whitespace-only segment
   * `w`, the field "a/b/w/" (as in "web/ui/ /") is parsed as just `a` and `b`.
   */
  lemma ExtractTagsDropsBlankSegments(a: string, b: string, w: string)
    requires IsTag(a) && IsTag(b)
    requires AllWhitespace(w) && Separator !in w
    ensures ExtractTags(a + [Separator] + b + [Separator] + w + [Separator]) == [a, b]
  {
    var tail := w + [Separator] + "";
    assert a + [Separator] + b + [Separator] + w + [Separator] == a + [Separator] + (b + [Separator] + tail);
    ExtractTagsSegment("");
    ExtractTagsConsBlank(w, "");
    ExtractTagsConsTag(b, tail);
    ExtractTagsConsTag(a, b + [Separator] + tail);
  }
}
