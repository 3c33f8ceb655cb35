/**
 * The message preview: each `{{field}}` placeholder of the typed message is
 * replaced, with `String.prototype.replace` and a global pattern, by the
 * selected contact's field, in the order firstName, lastName, phone, email,
 * address, suburb. The replacement text is a JavaScript replacement
 * template, so `$$`, `$&`, `` $` `` and `$'` in a contact's field are
 * expanded rather than copied.
 */
module Preview {
  import opened Text
  import opened Contacts
  import opened Wrappers

  /** The replacement template applied to one match of `matched` in a string
      whose text before the match is `before` and after it is `after`. With no
      capture groups in the pattern, `$1` … `$99` and `$<` stay literal. */
  function Expand(rep: string, matched: string, before: string, after: string): (r: string)
    ensures '$' !in rep ==> r == rep
    decreases |rep|
  {
    if rep == [] then []
    else if rep[0] == '$' && |rep| >= 2 && rep[1] == '$' then "$" + Expand(rep[2..], matched, before, after)
    else if rep[0] == '$' && |rep| >= 2 && rep[1] == '&' then matched + Expand(rep[2..], matched, before, after)
    else if rep[0] == '$' && |rep| >= 2 && rep[1] == '`' then before + Expand(rep[2..], matched, before, after)
    else if rep[0] == '$' && |rep| >= 2 && rep[1] == '\'' then after + Expand(rep[2..], matched, before, after)
    else [rep[0]] + Expand(rep[1..], matched, before, after)
  }

  /** `s.replace(/p/g, rep)` for a pattern that matches only the literal
      text `p`, scanning from index `i`: each non-overlapping occurrence,
      leftmost first, is replaced by the expanded template. */
  function ReplaceFrom(s: string, p: string, rep: string, i: nat): string
    requires p != [] && i <= |s|
    decreases |s| - i
  {
    if i + |p| > |s| then s[i..]
    else if s[i..i + |p|] == p then Expand(rep, p, s[..i], s[i + |p|..]) + ReplaceFrom(s, p, rep, i + |p|)
    else [s[i]] + ReplaceFrom(s, p, rep, i + 1)
  }

  function ReplaceAll(s: string, p: string, rep: string): string
    requires p != []
  {
    ReplaceFrom(s, p, rep, 0)
  }

  /** Replacing every occurrence of `p` by the literal text `rep`, as a
      reference for templates without `$`. */
  function LiteralReplace(t: string, p: string, rep: string): string
    requires p != []
    decreases |t|
  {
    if |t| < |p| then t
    else if t[..|p|] == p then rep + LiteralReplace(t[|p|..], p, rep)
    else [t[0]] + LiteralReplace(t[1..], p, rep)
  }

  /** A template without `$` is inserted literally. */
  lemma {:induction false} ReplaceLiteral(s: string, p: string, rep: string, i: nat)
    requires p != [] && i <= |s| && '$' !in rep
    ensures ReplaceFrom(s, p, rep, i) == LiteralReplace(s[i..], p, rep)
    decreases |s| - i
  {
    var t := s[i..];
    if i + |p| <= |s| {
      assert t[..|p|] == s[i..i + |p|];
      if s[i..i + |p|] == p {
        ReplaceLiteral(s, p, rep, i + |p|);
        assert t[|p|..] == s[i + |p|..];
      } else {
        ReplaceLiteral(s, p, rep, i + 1);
        assert t[1..] == s[i + 1..];
      }
    }
  }

  /** Text without the pattern's first character passes through unchanged. */
  lemma {:induction false} LiteralReplaceAbsent(t: string, p: string, rep: string)
    requires p != [] && p[0] !in t
    ensures LiteralReplace(t, p, rep) == t
    decreases |t|
  {
    if |t| >= |p| {
      assert t[..|p|][0] == t[0];
      LiteralReplaceAbsent(t[1..], p, rep);
    }
  }

  /** Text before the first possible match is copied. */
  lemma {:induction false} LiteralReplacePrefix(a: string, t: string, p: string, rep: string)
    requires p != [] && p[0] !in a
    ensures LiteralReplace(a + t, p, rep) == a + LiteralReplace(t, p, rep)
    decreases |a|
  {
    if a == [] {
      assert a + t == t;
    } else {
      var u := a + t;
      if |u| >= |p| {
        assert u[..|p|][0] == a[0];
        assert u[..|p|] != p;
        assert LiteralReplace(u, p, rep) == [u[0]] + LiteralReplace(u[1..], p, rep);
        assert u[1..] == a[1..] + t;
        LiteralReplacePrefix(a[1..], t, p, rep);
        assert a == [a[0]] + a[1..];
      } else {
        assert LiteralReplace(t, p, rep) == t;
      }
    }
  }

  /** A single occurrence of the pattern, with nothing around it that could
      start another, is replaced once. */
  lemma LiteralReplaceSingle(a: string, p: string, b: string, rep: string)
    requires p != [] && p[0] !in a && p[0] !in b
    ensures LiteralReplace(a + p + b, p, rep) == a + rep + b
  {
    assert a + p + b == a + (p + b);
    LiteralReplacePrefix(a, p + b, p, rep);
    assert (p + b)[..|p|] == p && (p + b)[|p|..] == b;
    LiteralReplaceAbsent(b, p, rep);
  }

  /** Without the pattern's first character, the string comes back as it was,
      whatever the template. */
  lemma {:induction false} ReplaceFromAbsent(s: string, p: string, rep: string, i: nat)
    requires p != [] && i <= |s| && p[0] !in s
    ensures ReplaceFrom(s, p, rep, i) == s[i..]
    decreases |s| - i
  {
    if i + |p| <= |s| {
      assert s[i..i + |p|][0] == s[i];
      ReplaceFromAbsent(s, p, rep, i + 1);
      assert s[i..] == [s[i]] + s[i + 1..];
    }
  }

  /** A text that does not include `p` has no occurrence of it at any index. */
  lemma {:induction false} NotContainedAt(s: string, p: string, i: nat)
    requires !Contains(s, p) && i <= |s|
    ensures !(i + |p| <= |s| && s[i..i + |p|] == p)
    decreases i
  {
    if i > 0 {
      if i + |p| <= |s| {
        assert s[1..][i - 1..i - 1 + |p|] == s[i..i + |p|];
      }
      NotContainedAt(s[1..], p, i - 1);
    }
  }

  /** A text that does not include the pattern comes back as it was, whatever
      the template. */
  lemma {:induction false} ReplaceFromNotContained(s: string, p: string, rep: string, i: nat)
    requires p != [] && i <= |s| && !Contains(s, p)
    ensures ReplaceFrom(s, p, rep, i) == s[i..]
    decreases |s| - i
  {
    if i + |p| <= |s| {
      NotContainedAt(s, p, i);
      ReplaceFromNotContained(s, p, rep, i + 1);
      assert s[i..] == [s[i]] + s[i + 1..];
    }
  }

  // ---------------------------------------------------------------------------
  // The placeholder chain

  /** `{{name}}`. */
  function Placeholder(name: string): (r: string)
    ensures |r| == |name| + 4 && r[0] == '{'
  {
    "{{" + name + "}}"
  }

  /** The fields in the order the preview replaces them. */
  const FieldNames: seq<string> := ["firstName", "lastName", "phone", "email", "address", "suburb"]

  /** What each placeholder becomes for a contact: its field, and for the
      optional fields a bracketed note when the field is empty. */
  function FieldValues(d: Details): (r: seq<string>)
    ensures |r| == |FieldNames|
  {
    [d.firstName, d.lastName, d.phone,
     if d.email != "" then d.email else "[No email]",
     if d.address != "" then d.address else "[No address]",
     if d.suburb != "" then d.suburb else "[No suburb]"]
  }

  /** The replacements applied one after another, in order. */
  function ReplaceChain(s: string, names: seq<string>, values: seq<string>): string
    requires |names| == |values|
    decreases |names|
  {
    if names == [] then s
    else ReplaceChain(ReplaceAll(s, Placeholder(names[0]), values[0]), names[1..], values[1..])
  }

  /** The message with every placeholder filled from one contact. */
  function FillPlaceholders(text: string, d: Details): string {
    ReplaceChain(text, FieldNames, FieldValues(d))
  }

  const PreviewPrompt := "Your message will appear here with placeholders filled..."

  /** `updateMessagePreview()`: the text the preview shows, given the typed
      message and the selected contact id (None when no contact is selected).
      None means the preview is left as it was, because no contact has the
      selected id. An empty result shows the prompt instead. */
  function MessagePreview(text: string, selected: Option<int>, cs: seq<Contact>): (r: Option<string>)
    ensures selected.None? ==> r == Some(if text == "" then PreviewPrompt else text)
    ensures selected.Some? ==> (r.None? <==> !HasId(cs, selected.value))
    ensures r.Some? ==> r.value != ""
    ensures selected.Some? && HasId(cs, selected.value) ==>
              var contact := cs[IndexOfId(cs, selected.value).value];
              var filled := FillPlaceholders(text, contact.details);
              r == Some(if filled == "" then PreviewPrompt else filled)
  {
    match selected
    case None => Some(if text == "" then PreviewPrompt else text)
    case Some(id) =>
      match IndexOfId(cs, id)
      case None => None
      case Some(i) =>
        var filled := FillPlaceholders(text, cs[i].details);
        Some(if filled == "" then PreviewPrompt else filled)
  }

  /** A field name usable inside a placeholder: no braces. */
  predicate PlainName(n: string) {
    '{' !in n && '}' !in n
  }

  /** One placeholder never starts where a different one is written. */
  lemma PlaceholderNotAt(n: string, m: string, b: string)
    requires PlainName(n) && PlainName(m) && n != m
    ensures !StartsWith(Placeholder(n) + b, Placeholder(m))
  {
    var t := Placeholder(n) + b;
    var pm := Placeholder(m);
    var i: nat;
    if |n| < |m| {
      assert m[|n|] in m;
      i := 2 + |n|;
    } else if |n| > |m| {
      assert n[|m|] in n;
      i := 2 + |m|;
    } else {
      var k :| 0 <= k < |n| && n[k] != m[k];
      i := 2 + k;
    }
    assert i < |pm| && i < |t| && t[i] != pm[i];
    if |pm| <= |t| {
      assert t[..|pm|][i] != pm[i];
    }
  }

  /** Replacing one placeholder leaves a different placeholder untouched. */
  lemma ReplaceOther(a: string, n: string, b: string, m: string, v: string)
    requires '{' !in a && '{' !in b && PlainName(n) && PlainName(m) && n != m
    ensures LiteralReplace(a + Placeholder(n) + b, Placeholder(m), v) == a + Placeholder(n) + b
  {
    var pm := Placeholder(m);
    var t := Placeholder(n) + b;
    assert a + Placeholder(n) + b == a + t;
    LiteralReplacePrefix(a, t, pm, v);
    PlaceholderNotAt(n, m, b);
    assert t[1..] == "{" + n + "}}" + b;
    assert t[2..] == n + "}}" + b;
    assert '{' !in t[2..];
    LiteralReplaceAbsent(t[2..], pm, v);
    if |t[1..]| >= |pm| {
      assert t[1..][..|pm|][1] == t[2] && pm[1] == '{';
      assert t[2] in t[2..];
    }
    assert t[1..][1..] == t[2..];
    assert t == [t[0]] + ([t[1]] + t[2..]);
  }

  /** A message without `{` passes through the whole chain unchanged. */
  lemma {:induction false} ChainAbsent(s: string, names: seq<string>, values: seq<string>)
    requires |names| == |values| && '{' !in s
    ensures ReplaceChain(s, names, values) == s
    decreases |names|
  {
    if names != [] {
      ReplaceFromAbsent(s, Placeholder(names[0]), values[0], 0);
      assert s[0..] == s;
      ChainAbsent(s, names[1..], values[1..]);
    }
  }

  /** A message that includes none of the placeholders passes through the
      whole chain unchanged. */
  lemma {:induction false} ChainNotContained(s: string, names: seq<string>, values: seq<string>)
    requires |names| == |values|
    requires forall k :: 0 <= k < |names| ==> !Contains(s, Placeholder(names[k]))
    ensures ReplaceChain(s, names, values) == s
    decreases |names|
  {
    if names != [] {
      ReplaceFromNotContained(s, Placeholder(names[0]), values[0], 0);
      assert s[0..] == s;
      assert forall k :: 0 <= k < |names[1..]| ==> names[1..][k] == names[k + 1];
      ChainNotContained(s, names[1..], values[1..]);
    }
  }

  predicate SafeValue(v: string) {
    '{' !in v && '$' !in v
  }

  /** A message holding one placeholder gets exactly that placeholder's
      value, when the names are distinct and brace-free and no value holds
      `{` or `$`. */
  lemma {:induction false} ChainOne(a: string, j: nat, b: string, names: seq<string>, values: seq<string>)
    requires |names| == |values| && j < |names|
    requires '{' !in a && '{' !in b
    requires forall k :: 0 <= k < |names| ==> PlainName(names[k]) && SafeValue(values[k])
    requires forall k, l :: 0 <= k < l < |names| ==> names[k] != names[l]
    ensures ReplaceChain(a + Placeholder(names[j]) + b, names, values) == a + values[j] + b
    decreases |names|
  {
    var s := a + Placeholder(names[j]) + b;
    var p := Placeholder(names[0]);
    ReplaceLiteral(s, p, values[0], 0);
    assert s[0..] == s;
    var next := ReplaceAll(s, p, values[0]);
    if j == 0 {
      LiteralReplaceSingle(a, p, b, values[0]);
      assert next == a + values[0] + b;
      ChainAbsent(next, names[1..], values[1..]);
    } else {
      ReplaceOther(a, names[j], b, names[0], values[0]);
      assert next == s;
      assert names[1..][j - 1] == names[j] && values[1..][j - 1] == values[j];
      ChainOne(a, j - 1, b, names[1..], values[1..]);
    }
  }

  /** A contact whose fields, after the defaults, hold no `{` and no `$`. */
  predicate PreviewSafe(d: Details) {
    forall k :: 0 <= k < |FieldValues(d)| ==> SafeValue(FieldValues(d)[k])
  }

  /** A message that includes none of the six placeholders previews as
      typed, whatever other braces it holds. */
  lemma FillNoPlaceholder(text: string, d: Details)
    requires forall k :: 0 <= k < |FieldNames| ==> !Contains(text, Placeholder(FieldNames[k]))
    ensures FillPlaceholders(text, d) == text
  {
    ChainNotContained(text, FieldNames, FieldValues(d));
  }

  /** A message with one `{{field}}` previews with that field of the contact,
      or `[No email]`, `[No address]`, `[No suburb]` for an empty optional field. */
  lemma FillOne(a: string, j: nat, b: string, d: Details)
    requires j < |FieldNames| && '{' !in a && '{' !in b && PreviewSafe(d)
    ensures FillPlaceholders(a + Placeholder(FieldNames[j]) + b, d) == a + FieldValues(d)[j] + b
  {
    var names := FieldNames;
    assert forall k :: 0 <= k < |names| ==> PlainName(names[k]);
    assert forall k, l :: 0 <= k < l < |names| ==> names[k] != names[l];
    ChainOne(a, j, b, names, FieldValues(d));
  }

  /** The replacement is a template: a contact named `$&` previews the
      placeholder itself rather than the name. */
  lemma DollarAmpersandKeepsPlaceholder()
    ensures ReplaceAll(Placeholder("firstName"), Placeholder("firstName"), "$&") == Placeholder("firstName")
  {
    var p := Placeholder("firstName");
    assert p[0..0 + |p|] == p;
    assert Expand("$&", p, "", "") == p + Expand("", p, "", "");
    assert ReplaceFrom(p, p, "$&", |p|) == [];
  }
}
