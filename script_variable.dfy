/**
 * The embedded-variable extractor: finds the first inline script that
 * assigns `name`, and cuts the text between the assignment token and the
 * next `;`. The caller falls back to a default literal when nothing usable
 * was found.
 */
module ScriptVariable {
  import opened Wrappers
  import opened JsText

  /** The text searched for: the variable name followed by `" ="`. */
  function AssignmentToken(name: string): (token: string)
    ensures |token| == |name| + 2 && token[..|name|] == name
    ensures token[|name|..] == " ="
  {
    name + " ="
  }

  /** The index of the first script, at or after `from`, whose text includes `token` (`Array.prototype.find`). */
  function FirstContaining(scripts: seq<string>, token: string, from: nat): (r: Option<nat>)
    requires from <= |scripts|
    ensures r.None? <==> forall i :: from <= i < |scripts| ==> !Includes(scripts[i], token)
    ensures r.Some? ==> from <= r.value < |scripts| && Includes(scripts[r.value], token)
    ensures r.Some? ==> forall j :: from <= j < r.value ==> !Includes(scripts[j], token)
    decreases |scripts| - from
  {
    if from == |scripts| then None
    else if Includes(scripts[from], token) then Some(from)
    else FirstContaining(scripts, token, from + 1)
  }

  /**
   * The literal text in a script known to contain `token`: from the end of
   * the token's first occurrence up to the first `;` after it. With no `;`
   * the end index is -1 and `substring` swaps it to 0, giving the prefix.
   */
  function LiteralSpan(text: string, token: string): (r: string)
    requires Includes(text, token)
    ensures 0 <= IndexOf(text, token, 0) && IndexOf(text, token, 0) + |token| <= |text|
    ensures var start := IndexOf(text, token, 0) + |token|;
      ';' in text[start..] ==>
        && start + |r| < |text|
        && text[start..start + |r|] == r
        && text[start + |r|] == ';'
        && ';' !in r
    ensures var start := IndexOf(text, token, 0) + |token|;
      ';' !in text[start..] ==> r == text[..start]
  {
    IncludesIffFound(text, token);
    var start := IndexOf(text, token, 0) + |token|;
    var end := IndexOf(text, ";", start);
    SpanUpToSemicolon(text, start);
    Substring(text, start, end)
  }

  /**
   * `text.substring(start, text.indexOf(';', start))`: the `;`-free text from
   * `start` up to the first `;`, or the prefix before `start` when none follows.
   */
  lemma SpanUpToSemicolon(text: string, start: nat)
    requires start <= |text|
    ensures var r := Substring(text, start, IndexOf(text, ";", start));
      ';' in text[start..] ==>
        && start + |r| < |text|
        && text[start..start + |r|] == r
        && text[start + |r|] == ';'
        && ';' !in r
    ensures ';' !in text[start..] ==> Substring(text, start, IndexOf(text, ";", start)) == text[..start]
  {
    var end := IndexOf(text, ";", start);
    if ';' in text[start..] {
      var i :| 0 <= i < |text[start..]| && text[start..][i] == ';';
      SemicolonAt(text, start + i);
      assert end != -1;
      assert start <= end < |text|;
      SemicolonAt(text, end);
      var r := text[start..end];
      forall q | 0 <= q < |r| ensures r[q] != ';' {
        SemicolonAt(text, start + q);
      }
    } else {
      forall j: nat | start <= j ensures !OccursAt(text, ";", j) {
        if j < |text| {
          SemicolonAt(text, j);
          assert text[start..][j - start] == text[j];
        }
      }
      assert end == -1;
    }
  }

  /** `extractVariableValue(dom, name)` over the texts of the document's scripts, in document order. */
  function ExtractVariableValue(scripts: seq<string>, name: string): (r: Option<string>)
    ensures r.None? <==> forall i :: 0 <= i < |scripts| ==> !Includes(scripts[i], AssignmentToken(name))
    ensures r.Some? ==> exists k :: 0 <= k < |scripts| && Includes(scripts[k], AssignmentToken(name)) &&
                                    r.value == LiteralSpan(scripts[k], AssignmentToken(name))
  {
    var token := AssignmentToken(name);
    match FirstContaining(scripts, token, 0)
    case None => None
    case Some(k) => Some(LiteralSpan(scripts[k], token))
  }

  /** `extracted || fallback`: an absent or empty extraction is replaced by the caller's literal. */
  function LiteralOrDefault(extracted: Option<string>, fallback: string): (r: string)
    ensures extracted.Some? && extracted.value != "" ==> r == extracted.value
    ensures extracted.None? || extracted.value == "" ==> r == fallback
  {
    if extracted.Some? && extracted.value != "" then extracted.value else fallback
  }

  /** `text[j..j+1] == ";"` is the same as `text[j] == ';'`. */
  lemma SemicolonAt(text: string, j: nat)
    requires j < |text|
    ensures OccursAt(text, ";", j) <==> text[j] == ';'
  {
    assert text[j..j + 1] == [text[j]];
  }

  /** The first occurrence found by `indexOf` is the position `p`. */
  lemma FirstOccurrenceFound(text: string, token: string, p: nat)
    requires OccursAt(text, token, p)
    requires forall j: nat :: j < p ==> !OccursAt(text, token, j)
    ensures Includes(text, token)
    ensures IndexOf(text, token, 0) == p
  {
    var r := IndexOf(text, token, 0);
    assert r != -1;
  }

  /**
   * What the span is, in terms of the first occurrence `p` of the token:
   * when a `;` follows, the span is the text right after the token up to
   * (excluding) the first such `;`; when none follows, it is the whole
   * prefix up to and including the token.
   */
  lemma {:induction false} SpanOfFirstOccurrence(text: string, token: string, p: nat)
    requires OccursAt(text, token, p)
    requires forall j: nat :: j < p ==> !OccursAt(text, token, j)
    ensures Includes(text, token)
    ensures ';' in text[p + |token|..] ==>
      var r := LiteralSpan(text, token);
      && p + |token| + |r| < |text|
      && text[p + |token|..p + |token| + |r|] == r
      && text[p + |token| + |r|] == ';'
      && ';' !in r
    ensures ';' !in text[p + |token|..] ==>
      var r := LiteralSpan(text, token);
      && r == text[..p + |token|]
      && |r| >= |token|
      && r[|r| - |token|..] == token
  {
    FirstOccurrenceFound(text, token, p);
    var r := LiteralSpan(text, token);
    if ';' !in text[p + |token|..] {
      assert r[p..] == token;
    }
  }

  /** When several scripts assign the variable, the first one in document order is used. */
  lemma ExtractUsesFirstScript(scripts: seq<string>, name: string, k: nat)
    requires k < |scripts| && Includes(scripts[k], AssignmentToken(name))
    requires forall j :: 0 <= j < k ==> !Includes(scripts[j], AssignmentToken(name))
    ensures ExtractVariableValue(scripts, name) == Some(LiteralSpan(scripts[k], AssignmentToken(name)))
  {
  }

  /** An occurrence that does not start inside `pre` does not start inside `pre` once more text follows. */
  lemma FirstOccurrenceAfterPrefix(pre: string, token: string, rest: string)
    requires forall j: nat :: j < |pre| ==> !OccursAt(pre + token, token, j)
    ensures OccursAt(pre + token + rest, token, |pre|)
    ensures forall j: nat :: j < |pre| ==> !OccursAt(pre + token + rest, token, j)
  {
    var u := pre + token;
    var text := u + rest;
    assert text[..|u|] == u;
    assert text[|pre|..|pre| + |token|] == u[|pre|..] == token;
    forall j: nat | j < |pre| ensures !OccursAt(text, token, j) {
      assert !OccursAt(u, token, j);
      assert text[j..j + |token|] == text[..|u|][j..j + |token|];
    }
  }

  /** The span of a script holding `pre`, the token, a `;`-free `body`, then `;`, is `body`. */
  lemma SpanOfAssignment(pre: string, token: string, body: string, post: string)
    requires forall j: nat :: j < |pre| ==> !OccursAt(pre + token, token, j)
    requires ';' !in body
    ensures Includes(pre + token + (body + ";" + post), token)
    ensures LiteralSpan(pre + token + (body + ";" + post), token) == body
  {
    var rest := body + ";" + post;
    var text := pre + token + rest;
    FirstOccurrenceAfterPrefix(pre, token, rest);
    FirstOccurrenceFound(text, token, |pre|);
    var start := |pre| + |token|;
    var e := start + |body|;
    assert text[start..] == rest;
    SemicolonAt(text, e);
    forall j: nat | start <= j < e ensures !OccursAt(text, ";", j) {
      SemicolonAt(text, j);
      assert text[j] == body[j - start];
    }
    assert IndexOf(text, ";", start) == e;
    assert text[start..e] == body;
  }

  /**
   * Round trip: a script that assigns `body` to `name` and ends the
   * statement with `;`, preceded by scripts that do not assign it and by
   * text in which the assignment does not start, yields exactly `body`.
   */
  lemma ExtractAssignedLiteral(before: seq<string>, pre: string, name: string, body: string, post: string)
    requires forall j :: 0 <= j < |before| ==> !Includes(before[j], AssignmentToken(name))
    requires forall j: nat :: j < |pre| ==> !OccursAt(pre + AssignmentToken(name), AssignmentToken(name), j)
    requires ';' !in body
    ensures ExtractVariableValue(before + [pre + AssignmentToken(name) + body + ";" + post], name) == Some(body)
  {
    var text := pre + AssignmentToken(name) + body + ";" + post;
    assert text == pre + AssignmentToken(name) + (body + ";" + post);
    var scripts := before + [text];
    SpanOfAssignment(pre, AssignmentToken(name), body, post);
    ExtractUsesFirstScript(scripts, name, |before|);
  }

  /**
   * When the chosen script has no `;` after the token, the literal handed to
   * the parser is the script's whole prefix up to and including the token:
   * it is never empty, so the caller's default is not used.
   */
  lemma UnterminatedLiteralIsPrefix(scripts: seq<string>, name: string, fallback: string, k: nat, p: nat)
    requires k < |scripts|
    requires forall j :: 0 <= j < k ==> !Includes(scripts[j], AssignmentToken(name))
    requires OccursAt(scripts[k], AssignmentToken(name), p)
    requires forall j: nat :: j < p ==> !OccursAt(scripts[k], AssignmentToken(name), j)
    requires ';' !in scripts[k][p + |AssignmentToken(name)|..]
    ensures LiteralOrDefault(ExtractVariableValue(scripts, name), fallback) == scripts[k][..p + |name| + 2]
  {
    var token := AssignmentToken(name);
    SpanOfFirstOccurrence(scripts[k], token, p);
    var r := LiteralSpan(scripts[k], token);
    assert r == scripts[k][..p + |token|] && |r| >= |token| == |name| + 2;
    ExtractUsesFirstScript(scripts, name, k);
    assert ExtractVariableValue(scripts, name) == Some(r);
  }
}
