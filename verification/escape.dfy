/** `escapeLatex`: the escaping applied to directory and file names before
    they become section titles. */
module Escape {
  import opened Text

  /** The ten global replacements of `escapeLatex`, in the order the source
      applies them. Later passes see the text earlier passes produced, so the
      braces of `\textbackslash{}` are escaped again by the third and fourth
      passes, while those of `\^{}` and `\~{}` (added afterwards) are not. */
  function EscapeLatex(text: string): string
  {
    SymbolPasses(BracePasses(text))
  }

  /** Passes one to four: backslash, underscore, opening and closing brace. */
  function BracePasses(t: string): string
  {
    var t1 := ReplaceAll(t, '\\', "\\textbackslash{}");
    var t2 := ReplaceAll(t1, '_', "\\_");
    var t3 := ReplaceAll(t2, '{', "\\{");
    ReplaceAll(t3, '}', "\\}")
  }

  /** Passes five to ten: dollar, hash, ampersand, caret, tilde, percent. */
  function SymbolPasses(t: string): string
  {
    var t5 := ReplaceAll(t, '$', "\\$");
    var t6 := ReplaceAll(t5, '#', "\\#");
    var t7 := ReplaceAll(t6, '&', "\\&");
    var t8 := ReplaceAll(t7, '^', "\\^{}");
    var t9 := ReplaceAll(t8, '~', "\\~{}");
    ReplaceAll(t9, '%', "\\%")
  }

  /** The characters some pass rewrites. */
  predicate IsReserved(c: char)
  {
    c in "\\_{}$#&^~%"
  }

  /** What the ten passes, together, make of a single character: an
      independent per-character description of `EscapeLatex`. */
  function EscapeChar(c: char): string
  {
    match c
    case '\\' => "\\textbackslash\\{\\}"
    case '_' => "\\_"
    case '{' => "\\{"
    case '}' => "\\}"
    case '$' => "\\$"
    case '#' => "\\#"
    case '&' => "\\&"
    case '^' => "\\^{}"
    case '~' => "\\~{}"
    case '%' => "\\%"
    case _ => [c]
  }

  /** Character-by-character escaping with `EscapeChar`. */
  function EscapeChars(s: string): string
  {
    if s == [] then [] else EscapeChar(s[0]) + EscapeChars(s[1..])
  }

  lemma BracePassesConcat(a: string, b: string)
    ensures BracePasses(a + b) == BracePasses(a) + BracePasses(b)
  {
    var x1, y1 := ReplaceAll(a, '\\', "\\textbackslash{}"), ReplaceAll(b, '\\', "\\textbackslash{}");
    ReplaceAllConcat(a, b, '\\', "\\textbackslash{}");
    var x2, y2 := ReplaceAll(x1, '_', "\\_"), ReplaceAll(y1, '_', "\\_");
    ReplaceAllConcat(x1, y1, '_', "\\_");
    var x3, y3 := ReplaceAll(x2, '{', "\\{"), ReplaceAll(y2, '{', "\\{");
    ReplaceAllConcat(x2, y2, '{', "\\{");
    ReplaceAllConcat(x3, y3, '}', "\\}");
  }

  lemma SymbolPassesConcat(a: string, b: string)
    ensures SymbolPasses(a + b) == SymbolPasses(a) + SymbolPasses(b)
  {
    var x5, y5 := ReplaceAll(a, '$', "\\$"), ReplaceAll(b, '$', "\\$");
    ReplaceAllConcat(a, b, '$', "\\$");
    var x6, y6 := ReplaceAll(x5, '#', "\\#"), ReplaceAll(y5, '#', "\\#");
    ReplaceAllConcat(x5, y5, '#', "\\#");
    var x7, y7 := ReplaceAll(x6, '&', "\\&"), ReplaceAll(y6, '&', "\\&");
    ReplaceAllConcat(x6, y6, '&', "\\&");
    var x8, y8 := ReplaceAll(x7, '^', "\\^{}"), ReplaceAll(y7, '^', "\\^{}");
    ReplaceAllConcat(x7, y7, '^', "\\^{}");
    var x9, y9 := ReplaceAll(x8, '~', "\\~{}"), ReplaceAll(y8, '~', "\\~{}");
    ReplaceAllConcat(x8, y8, '~', "\\~{}");
    ReplaceAllConcat(x9, y9, '%', "\\%");
  }

  /** Every pass distributes over concatenation, hence so does the escaper. */
  lemma EscapeLatexConcat(a: string, b: string)
    ensures EscapeLatex(a + b) == EscapeLatex(a) + EscapeLatex(b)
  {
    BracePassesConcat(a, b);
    SymbolPassesConcat(BracePasses(a), BracePasses(b));
  }

  /** Passes one to four leave a text without `\`, `_`, `{` and `}` unchanged. */
  lemma BracePassesAbsent(t: string)
    requires '\\' !in t && '_' !in t && '{' !in t && '}' !in t
    ensures BracePasses(t) == t
  {
    ReplaceAllAbsent(t, '\\', "\\textbackslash{}");
    ReplaceAllAbsent(t, '_', "\\_");
    ReplaceAllAbsent(t, '{', "\\{");
    ReplaceAllAbsent(t, '}', "\\}");
  }

  /** Passes one to four bring in no character that passes five to ten rewrite. */
  lemma BracePassesNoSymbols(t: string)
    requires '$' !in t && '#' !in t && '&' !in t && '^' !in t && '~' !in t && '%' !in t
    ensures var r := BracePasses(t);
      '$' !in r && '#' !in r && '&' !in r && '^' !in r && '~' !in r && '%' !in r
  {
    var t1 := ReplaceAll(t, '\\', "\\textbackslash{}");
    var t2 := ReplaceAll(t1, '_', "\\_");
    var t3 := ReplaceAll(t2, '{', "\\{");
    forall x | x in "$#&^~%"
      ensures x !in BracePasses(t)
    {
      ReplaceAllKeepsOut(t, '\\', "\\textbackslash{}", x);
      ReplaceAllKeepsOut(t1, '_', "\\_", x);
      ReplaceAllKeepsOut(t2, '{', "\\{", x);
      ReplaceAllKeepsOut(t3, '}', "\\}", x);
    }
  }

  /** Passes five to ten leave a text without `$#&^~%` unchanged. */
  lemma SymbolPassesAbsent(t: string)
    requires '$' !in t && '#' !in t && '&' !in t && '^' !in t && '~' !in t && '%' !in t
    ensures SymbolPasses(t) == t
  {
    ReplaceAllAbsent(t, '$', "\\$");
    ReplaceAllAbsent(t, '#', "\\#");
    ReplaceAllAbsent(t, '&', "\\&");
    ReplaceAllAbsent(t, '^', "\\^{}");
    ReplaceAllAbsent(t, '~', "\\~{}");
    ReplaceAllAbsent(t, '%', "\\%");
  }

  /** The backslash: the braces of its replacement meet the two brace passes
      that follow, so it ends as `\textbackslash\{\}`. */
  lemma EscapeBackslash()
    ensures EscapeLatex("\\") == "\\textbackslash\\{\\}"
  {
    var c := '\\';
    assert [c] == "\\";
    BracePassesNoSymbols([c]);
    SymbolPassesAbsent(BracePasses([c]));
    BracePassesBackslash(c);
  }

  lemma BracePassesBackslash(c: char)
    requires c == '\\'
    ensures BracePasses([c]) == "\\textbackslash\\{\\}"
  {
    ReplaceAllSingle(c, '\\', "\\textbackslash{}");
    ReplaceAllAbsent("\\textbackslash{}", '_', "\\_");
    BackslashOpenBrace("\\textbackslash{}");
    BackslashCloseBrace("\\textbackslash\\{}");
  }

  /** The third pass escapes the opening brace `\textbackslash{}` brought in. */
  lemma BackslashOpenBrace(t: string)
    requires t == "\\textbackslash{}"
    ensures ReplaceAll(t, '{', "\\{") == "\\textbackslash\\{}"
  {
    var p := "\\textbackslash";
    assert t == p + ['{'] + "}";
    ReplaceOnce(p, '{', "}", "\\{");
  }

  /** The fourth pass escapes its closing brace. */
  lemma BackslashCloseBrace(t: string)
    requires t == "\\textbackslash\\{}"
    ensures ReplaceAll(t, '}', "\\}") == "\\textbackslash\\{\\}"
  {
    var q := "\\textbackslash\\{";
    assert t == q + ['}'] + "";
    ReplaceOnce(q, '}', "", "\\}");
  }

  /** The other nine reserved characters each meet only their own pass. */
  lemma EscapeUnderscore()
    ensures EscapeLatex("_") == "\\_"
  {
    var c := '_';
    assert [c] == "_";
    BracePassesNoSymbols([c]);
    SymbolPassesAbsent(BracePasses([c]));
    BracePassesUnderscore(c);
  }

  lemma BracePassesUnderscore(c: char)
    requires c == '_'
    ensures BracePasses([c]) == "\\_"
  {
    ReplaceAllAbsent([c], '\\', "\\textbackslash{}");
    ReplaceAllSingle(c, '_', "\\_");
    ReplaceAllAbsent("\\_", '{', "\\{");
    ReplaceAllAbsent("\\_", '}', "\\}");
  }

  lemma EscapeOpenBrace()
    ensures EscapeLatex("{") == "\\{"
  {
    var c := '{';
    assert [c] == "{";
    BracePassesNoSymbols([c]);
    SymbolPassesAbsent(BracePasses([c]));
    BracePassesOpenBrace(c);
  }

  lemma BracePassesOpenBrace(c: char)
    requires c == '{'
    ensures BracePasses([c]) == "\\{"
  {
    ReplaceAllAbsent([c], '\\', "\\textbackslash{}");
    ReplaceAllAbsent([c], '_', "\\_");
    ReplaceAllSingle(c, '{', "\\{");
    ReplaceAllAbsent("\\{", '}', "\\}");
  }

  lemma EscapeCloseBrace()
    ensures EscapeLatex("}") == "\\}"
  {
    var c := '}';
    assert [c] == "}";
    BracePassesNoSymbols([c]);
    SymbolPassesAbsent(BracePasses([c]));
    BracePassesCloseBrace(c);
  }

  lemma BracePassesCloseBrace(c: char)
    requires c == '}'
    ensures BracePasses([c]) == "\\}"
  {
    ReplaceAllAbsent([c], '\\', "\\textbackslash{}");
    ReplaceAllAbsent([c], '_', "\\_");
    ReplaceAllAbsent([c], '{', "\\{");
    ReplaceAllSingle(c, '}', "\\}");
  }

  lemma EscapeDollar()
    ensures EscapeLatex("$") == "\\$"
  {
    var c := '$';
    assert [c] == "$";
    BracePassesAbsent([c]);
    SymbolPassesDollar(c);
  }

  lemma SymbolPassesDollar(c: char)
    requires c == '$'
    ensures SymbolPasses([c]) == "\\$"
  {
    ReplaceAllSingle(c, '$', "\\$");
    ReplaceAllAbsent("\\$", '#', "\\#");
    ReplaceAllAbsent("\\$", '&', "\\&");
    ReplaceAllAbsent("\\$", '^', "\\^{}");
    ReplaceAllAbsent("\\$", '~', "\\~{}");
    ReplaceAllAbsent("\\$", '%', "\\%");
  }

  lemma EscapeHash()
    ensures EscapeLatex("#") == "\\#"
  {
    var c := '#';
    assert [c] == "#";
    BracePassesAbsent([c]);
    SymbolPassesHash(c);
  }

  lemma SymbolPassesHash(c: char)
    requires c == '#'
    ensures SymbolPasses([c]) == "\\#"
  {
    ReplaceAllAbsent([c], '$', "\\$");
    ReplaceAllSingle(c, '#', "\\#");
    ReplaceAllAbsent("\\#", '&', "\\&");
    ReplaceAllAbsent("\\#", '^', "\\^{}");
    ReplaceAllAbsent("\\#", '~', "\\~{}");
    ReplaceAllAbsent("\\#", '%', "\\%");
  }

  lemma EscapeAmpersand()
    ensures EscapeLatex("&") == "\\&"
  {
    var c := '&';
    assert [c] == "&";
    BracePassesAbsent([c]);
    SymbolPassesAmpersand(c);
  }

  lemma SymbolPassesAmpersand(c: char)
    requires c == '&'
    ensures SymbolPasses([c]) == "\\&"
  {
    ReplaceAllAbsent([c], '$', "\\$");
    ReplaceAllAbsent([c], '#', "\\#");
    ReplaceAllSingle(c, '&', "\\&");
    ReplaceAllAbsent("\\&", '^', "\\^{}");
    ReplaceAllAbsent("\\&", '~', "\\~{}");
    ReplaceAllAbsent("\\&", '%', "\\%");
  }

  /** The braces of `\^{}` and `\~{}` come after the brace passes, so they
      stay unescaped. */
  lemma EscapeCaret()
    ensures EscapeLatex("^") == "\\^{}"
  {
    var c := '^';
    assert [c] == "^";
    BracePassesAbsent([c]);
    SymbolPassesCaret(c);
  }

  lemma SymbolPassesCaret(c: char)
    requires c == '^'
    ensures SymbolPasses([c]) == "\\^{}"
  {
    ReplaceAllAbsent([c], '$', "\\$");
    ReplaceAllAbsent([c], '#', "\\#");
    ReplaceAllAbsent([c], '&', "\\&");
    ReplaceAllSingle(c, '^', "\\^{}");
    ReplaceAllAbsent("\\^{}", '~', "\\~{}");
    ReplaceAllAbsent("\\^{}", '%', "\\%");
  }

  lemma EscapeTilde()
    ensures EscapeLatex("~") == "\\~{}"
  {
    var c := '~';
    assert [c] == "~";
    BracePassesAbsent([c]);
    SymbolPassesTilde(c);
  }

  lemma SymbolPassesTilde(c: char)
    requires c == '~'
    ensures SymbolPasses([c]) == "\\~{}"
  {
    ReplaceAllAbsent([c], '$', "\\$");
    ReplaceAllAbsent([c], '#', "\\#");
    ReplaceAllAbsent([c], '&', "\\&");
    ReplaceAllAbsent([c], '^', "\\^{}");
    ReplaceAllSingle(c, '~', "\\~{}");
    ReplaceAllAbsent("\\~{}", '%', "\\%");
  }

  lemma EscapePercent()
    ensures EscapeLatex("%") == "\\%"
  {
    var c := '%';
    assert [c] == "%";
    BracePassesAbsent([c]);
    SymbolPassesPercent(c);
  }

  lemma SymbolPassesPercent(c: char)
    requires c == '%'
    ensures SymbolPasses([c]) == "\\%"
  {
    ReplaceAllAbsent([c], '$', "\\$");
    ReplaceAllAbsent([c], '#', "\\#");
    ReplaceAllAbsent([c], '&', "\\&");
    ReplaceAllAbsent([c], '^', "\\^{}");
    ReplaceAllAbsent([c], '~', "\\~{}");
    ReplaceAllSingle(c, '%', "\\%");
  }

  /** A text without reserved characters passes all ten replacements unchanged. */
  lemma EscapeLatexIdentity(s: string)
    requires forall i :: 0 <= i < |s| ==> !IsReserved(s[i])
    ensures EscapeLatex(s) == s
  {
    assert forall c :: c in s ==> !IsReserved(c);
    BracePassesAbsent(s);
    SymbolPassesAbsent(s);
  }

  /** On one character the ten passes give `EscapeChar`. */
  lemma EscapeLatexOneChar(c: char)
    ensures EscapeLatex([c]) == EscapeChar(c)
  {
    match c
    case '\\' => EscapeBackslash();
    case '_' => EscapeUnderscore();
    case '{' => EscapeOpenBrace();
    case '}' => EscapeCloseBrace();
    case '$' => EscapeDollar();
    case '#' => EscapeHash();
    case '&' => EscapeAmpersand();
    case '^' => EscapeCaret();
    case '~' => EscapeTilde();
    case '%' => EscapePercent();
    case _ => EscapeLatexIdentity([c]);
  }

  /** Escaping is character by character: the ten passes in code order
      amount to `EscapeChar` applied to each character in turn, so characters
      outside the ten are neither altered nor reordered. */
  lemma {:induction false} EscapeLatexIsCharwise(s: string)
    ensures EscapeLatex(s) == EscapeChars(s)
  {
    if s == [] {
      EscapeLatexIdentity(s);
    } else {
      assert s == [s[0]] + s[1..];
      EscapeLatexConcat([s[0]], s[1..]);
      EscapeLatexOneChar(s[0]);
      EscapeLatexIsCharwise(s[1..]);
    }
  }

  /** Per-character escaping never shortens a text; it lengthens every text
      holding a reserved character, and then leaves a backslash in it. */
  lemma {:induction false} EscapeCharsLength(s: string)
    ensures |EscapeChars(s)| >= |s|
    ensures (exists i :: 0 <= i < |s| && IsReserved(s[i])) ==> |EscapeChars(s)| > |s|
    ensures (exists i :: 0 <= i < |s| && IsReserved(s[i])) ==> '\\' in EscapeChars(s)
  {
    if s != [] {
      EscapeCharsLength(s[1..]);
      var head := EscapeChar(s[0]);
      assert EscapeChars(s) == head + EscapeChars(s[1..]);
      assert |head| >= 1;
      assert IsReserved(s[0]) ==> |head| > 1 && head[0] == '\\';
      if exists i :: 0 <= i < |s| && IsReserved(s[i]) {
        var i :| 0 <= i < |s| && IsReserved(s[i]);
        if i > 0 {
          assert IsReserved(s[1..][i - 1]);
        }
      }
    }
  }

  /** Escaping is not idempotent: once a text holds a reserved character,
      escaping the escaped text changes it again, so callers must escape each
      raw name exactly once. */
  lemma EscapeLatexNotIdempotent(s: string)
    requires exists i :: 0 <= i < |s| && IsReserved(s[i])
    ensures EscapeLatex(EscapeLatex(s)) != EscapeLatex(s)
  {
    var e := EscapeLatex(s);
    EscapeLatexIsCharwise(s);
    EscapeCharsLength(s);
    var k :| 0 <= k < |e| && e[k] == '\\';
    assert IsReserved(e[k]);
    EscapeLatexIsCharwise(e);
    EscapeCharsLength(e);
  }
}
