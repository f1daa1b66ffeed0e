/** `templateParameter` and the chain of seven `.replace` calls that turns
    the header template into the document preamble. */
module Template {
  import opened Text

  /** The placeholder token for a parameter name: `${name}`. */
  function TemplateParameter(parameter: string): string
  {
    "${" + parameter + "}"
  }

  /** The placeholders, in the order the header is filled. */
  const Placeholders: seq<string> := ["author", "initials", "fontSize", "multicolsBegin", "paper", "orientation", "image"]

  /** The values put into the header, one per placeholder. */
  datatype HeaderValues = HeaderValues(
    author: string,
    initials: string,
    fontSize: string,
    multicolsBegin: string,
    paper: string,
    orientation: string,
    image: string)

  function ValueList(v: HeaderValues): (r: seq<string>)
    ensures |r| == |Placeholders|
  {
    [v.author, v.initials, v.fontSize, v.multicolsBegin, v.paper, v.orientation, v.image]
  }

  /** The tokens of a list of names. */
  function Tokens(names: seq<string>): (r: seq<string>)
    ensures |r| == |names|
    ensures forall i :: 0 <= i < |r| ==> r[i] == TemplateParameter(names[i])
  {
    if names == [] then [] else [TemplateParameter(names[0])] + Tokens(names[1..])
  }

  /** `template.replace(TemplateParameter(names[0]), values[0]).replace(…)…`:
      one first-occurrence replacement per name, left to right, each working
      on the text the previous one produced. */
  function Fill(template: string, names: seq<string>, values: seq<string>): string
    requires |values| == |names|
    decreases |names|
  {
    if names == [] then template
    else Fill(ReplaceFirst(template, TemplateParameter(names[0]), values[0]), names[1..], values[1..])
  }

  /** The header: the template with its seven placeholders filled in order. */
  function FillHeader(template: string, v: HeaderValues): string
  {
    Fill(template, Placeholders, ValueList(v))
  }

  /** `ts[0] + fs[0] + ts[1] + … + fs[n-1] + ts[n]`. */
  function Interleave(ts: seq<string>, fs: seq<string>): string
    requires |ts| == |fs| + 1
  {
    if fs == [] then ts[0] else ts[0] + fs[0] + Interleave(ts[1..], fs[1..])
  }

  predicate DollarFree(xs: seq<string>)
  {
    forall i :: 0 <= i < |xs| ==> '$' !in xs[i]
  }

  /** No token starts inside a text without `$`. */
  lemma NoTokenIn(s: string, pre: string, tok: string)
    requires StartsWith(s, pre) && '$' !in pre && tok != [] && tok[0] == '$'
    ensures forall j :: 0 <= j < |pre| ==> !OccursAt(s, tok, j)
  {
    forall j | 0 <= j < |pre|
      ensures !OccursAt(s, tok, j)
    {
      assert s[j] == pre[j];
      if j + |tok| <= |s| {
        assert s[j..j + |tok|][0] == s[j];
      }
    }
  }

  /** One replacement: in `pre + tok + post` with `pre` free of `$`, the token
      right after `pre` is its first occurrence and is exchanged for the
      value; `post` is kept verbatim even when it holds the token again. */
  lemma FillStep(pre: string, tok: string, post: string, v: string)
    requires '$' !in pre && '$' !in v && tok != [] && tok[0] == '$'
    ensures ReplaceFirst(pre + tok + post, tok, v) == pre + v + post
  {
    var s := pre + tok + post;
    assert s[..|pre|] == pre;
    NoTokenIn(s, pre, tok);
    assert s[|pre|..|pre| + |tok|] == tok;
    ReplaceFirstSpec(s, tok, v, |pre|);
    assert s[|pre| + |tok|..] == post;
  }

  /** Filling a template laid out as texts without `$` around the tokens, in
      fill order, puts each value where its token was. */
  lemma {:induction false} FillInterleave(pre: string, ts: seq<string>, names: seq<string>, values: seq<string>)
    requires |ts| == |names| + 1 && |values| == |names|
    requires '$' !in pre && DollarFree(ts) && DollarFree(values)
    ensures Fill(pre + Interleave(ts, Tokens(names)), names, values) == pre + Interleave(ts, values)
    decreases |names|
  {
    if names != [] {
      var pre' := FillFirst(pre, ts, names, values);
      FillInterleave(pre', ts[1..], names[1..], values[1..]);
      InterleaveStep(pre, ts, values);
    }
  }

  /** The first step of `FillInterleave`: the first token is replaced, and
      the text before the rest of the layout is still free of `$`. */
  lemma FillFirst(pre: string, ts: seq<string>, names: seq<string>, values: seq<string>) returns (pre': string)
    requires |ts| == |names| + 1 && |values| == |names| && names != []
    requires '$' !in pre && DollarFree(ts) && DollarFree(values)
    ensures pre' == pre + ts[0] + values[0] && '$' !in pre'
    ensures ReplaceFirst(pre + Interleave(ts, Tokens(names)), TemplateParameter(names[0]), values[0])
      == pre' + Interleave(ts[1..], Tokens(names[1..]))
  {
    var tok := TemplateParameter(names[0]);
    var rest := Interleave(ts[1..], Tokens(names[1..]));
    assert Tokens(names)[1..] == Tokens(names[1..]);
    assert pre + Interleave(ts, Tokens(names)) == (pre + ts[0]) + tok + rest;
    FillStep(pre + ts[0], tok, rest, values[0]);
    pre' := pre + ts[0] + values[0];
  }

  lemma InterleaveStep(pre: string, ts: seq<string>, fs: seq<string>)
    requires |ts| == |fs| + 1 && fs != []
    ensures (pre + ts[0] + fs[0]) + Interleave(ts[1..], fs[1..]) == pre + Interleave(ts, fs)
  {
  }

  /** The header of a template holding each placeholder once, in fill order,
      between texts without `$`: every value lands in its placeholder's place
      and every other character is kept. */
  lemma FillHeaderLayout(ts: seq<string>, v: HeaderValues)
    requires |ts| == |Placeholders| + 1 && DollarFree(ts) && DollarFree(ValueList(v))
    ensures FillHeader(Interleave(ts, Tokens(Placeholders)), v) == Interleave(ts, ValueList(v))
  {
    FillInterleave("", ts, Placeholders, ValueList(v));
    assert "" + Interleave(ts, Tokens(Placeholders)) == Interleave(ts, Tokens(Placeholders));
    assert "" + Interleave(ts, ValueList(v)) == Interleave(ts, ValueList(v));
  }

  /** A template without `$` holds no placeholder and comes out unchanged. */
  lemma {:induction false} FillNoPlaceholder(template: string, names: seq<string>, values: seq<string>)
    requires |values| == |names| && '$' !in template
    ensures Fill(template, names, values) == template
  {
    if names != [] {
      var tok := TemplateParameter(names[0]);
      NoTokenIn(template, template, tok);
      ReplaceFirstAbsent(template, tok, values[0]);
      FillNoPlaceholder(template, names[1..], values[1..]);
    }
  }

  /** A value is not always inserted literally: `$&` stands for the matched
      token, so a value of `$&` leaves the placeholder in the header. */
  lemma DollarAmpersandKeepsToken(pre: string, tok: string, post: string)
    requires '$' !in pre && tok != [] && tok[0] == '$'
    ensures ReplaceFirst(pre + tok + post, tok, "$&") == pre + tok + post
  {
    var s := pre + tok + post;
    assert s[..|pre|] == pre;
    NoTokenIn(s, pre, tok);
    assert s[|pre|..|pre| + |tok|] == tok;
    ReplaceFirstAt(s, tok, "$&", |pre|);
    SubstitutionMatched(tok, pre, s[|pre| + |tok|..]);
    assert s[|pre| + |tok|..] == post;
  }
}
