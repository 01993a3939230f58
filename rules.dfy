/** The validation-rule interpreter of `Generator::extractParamsFromRequestValidationRules`
    (src/Generator.php:239-300): every field of a Laravel validation-rule
    mapping becomes one query Parameter whose schema is read off the field's
    rule tokens. */
module Rules {
  import opened Wrappers
  import opened Text
  import opened Seqs
  import opened Schema

  /** A field's rules: a `|`-joined string or an explicit list of tokens. */
  datatype RuleSpec = Joined(text: string) | Tokens(tokens: seq<string>)

  /** One entry of the field-name => rules mapping a rule extractor returns. */
  datatype RuleField = RuleField(name: string, spec: RuleSpec)

  /** `is_string($rules) ? explode('|', $rules) : $rules` */
  function TokensOf(spec: RuleSpec): seq<string> {
    match spec
    case Joined(text) => Split(text, '|')
    case Tokens(tokens) => tokens
  }

  /** `Str::is('exists:*,id*', $v)`: the pattern's `*` is a PCRE `.*`, which
      does not cross a line feed. */
  predicate IsExistsId(t: string) {
    NoNewline(t) && StartsWith(t, "exists:") && Contains(t[|"exists:"|..], ",id")
  }

  /** `Str::is('in:*', $v)` */
  predicate IsInRule(t: string) {
    NoNewline(t) && StartsWith(t, "in:")
  }

  /** The kind chosen by the if/elseif chain on exact tokens; `in_array` with
      a non-numeric needle compares strings exactly. */
  function DeclaredKind(tokens: seq<string>): Kind {
    if "bool" in tokens || "boolean" in tokens then BooleanType
    else if "numeric" in tokens then NumberType
    else if "integer" in tokens || "int" in tokens then IntegerType
    else StringType
  }

  /** A foreign-key rule on an id column forces an integer whatever was declared. */
  function KindOf(tokens: seq<string>): Kind {
    if exists t :: t in tokens && IsExistsId(t) then IntegerType else DeclaredKind(tokens)
  }

  /** One literal of an `in:` list: `trim('"')`, then `""` collapsed to `"`. */
  function DecodeLiteral(v: string): string {
    ReplaceAll(Trim(v, '"'), "\"\"", "\"")
  }

  /** The values of an `in:` token, split on commas, in order, duplicates kept. */
  function DecodeEnum(token: string): seq<string> {
    var parts := Split(ReplaceFirst(token, "in:", ""), ',');
    seq(|parts|, i requires 0 <= i < |parts| => DecodeLiteral(parts[i]))
  }

  /** The enum of the first `in:` token, or no enum at all. */
  function EnumOf(tokens: seq<string>): seq<string> {
    match FirstWhere(tokens, IsInRule)
    case None => []
    case Some(t) => DecodeEnum(t)
  }

  /** `Str::startsWith($v, key)` as a callback. */
  function KeyTest(key: string): string -> bool {
    t => StartsWith(t, key)
  }

  /** `Str::replace(key, '', first token starting with key ?? '')`, kept only
      when it is truthy: an empty suffix or "0" sets no bound. */
  function BoundOf(tokens: seq<string>, key: string): (b: Option<string>)
    ensures b.Some? ==> Truthy(b.value)
  {
    var raw := ReplaceAll(FirstWhere(tokens, KeyTest(key)).GetOr(""), key, "");
    if Truthy(raw) then Some(raw) else None
  }

  /** The parameter one field's tokens describe. */
  function ParamFromTokens(name: string, tokens: seq<string>): (p: Parameter)
    ensures p.name == name && p.location == Query && p.description == ""
    ensures p.required <==> "required" in tokens
    ensures p.schema.ty.nullable <==> "nullable" in tokens
    ensures !IsNumberInstance(p.schema.ty.kind) ==> p.schema.ty.minimum.None? && p.schema.ty.maximum.None?
    ensures BoundsOnlyOnNumbers(p.schema.ty)
    ensures p.schema.enumValues == [] <==> forall t :: t in tokens ==> !IsInRule(t)
    ensures p.schema.ty.kind == KindOf(tokens) && p.schema.enumValues == EnumOf(tokens)
    ensures IsNumberInstance(p.schema.ty.kind) ==>
              p.schema.ty.minimum == BoundOf(tokens, "min:") && p.schema.ty.maximum == BoundOf(tokens, "max:")
  {
    var kind := KindOf(tokens);
    var ty := SchemaType(kind, "nullable" in tokens,
                         if IsNumberInstance(kind) then BoundOf(tokens, "min:") else None,
                         if IsNumberInstance(kind) then BoundOf(tokens, "max:") else None);
    var enumValues := EnumOf(tokens);
    assert enumValues == [] <==> forall t :: t in tokens ==> !IsInRule(t) by {
      if exists t :: t in tokens && IsInRule(t) {
        var t :| t in tokens && IsInRule(t);
        var i :| 0 <= i < |tokens| && tokens[i] == t;
        assert FirstWhere(tokens, IsInRule).Some?;
      }
    }
    Parameter(name, Query, "", "required" in tokens, Schema(ty, enumValues))
  }

  function ParamFromRules(field: RuleField): Parameter {
    ParamFromTokens(field.name, TokensOf(field.spec))
  }

  /** The whole interpreter: no mapping (or an empty one) gives no parameters;
      otherwise one parameter per field, in the mapping's order. */
  function ParamsFromRules(rules: Option<seq<RuleField>>): (ps: seq<Parameter>)
    ensures rules.None? ==> ps == []
    ensures rules.Some? ==> |ps| == |rules.value|
    ensures rules.Some? ==> forall i :: 0 <= i < |ps| ==>
              ps[i].name == rules.value[i].name && ps[i].location == Query && ps[i].description == "" &&
              ps[i] == ParamFromRules(rules.value[i])
  {
    match rules
    case None => []
    case Some(fields) => seq(|fields|, i requires 0 <= i < |fields| => ParamFromRules(fields[i]))
  }

  // ---------------------------------------------------------------------
  // Properties of the interpreter

  /** The kind, nullability and requiredness depend only on which tokens occur,
      not on their order or repetition (only the enum and bounds read the
      first matching token). */
  lemma {:induction false} FlagsIgnoreOrder(name: string, a: seq<string>, b: seq<string>)
    requires multiset(a) == multiset(b)
    ensures ParamFromTokens(name, a).schema.ty.kind == ParamFromTokens(name, b).schema.ty.kind
    ensures ParamFromTokens(name, a).schema.ty.nullable == ParamFromTokens(name, b).schema.ty.nullable
    ensures ParamFromTokens(name, a).required == ParamFromTokens(name, b).required
  {
    forall t ensures t in a <==> t in b {
      assert t in a <==> t in multiset(a);
      assert t in b <==> t in multiset(b);
    }
    KindOfMembership(a, b);
  }

  /** A foreign-key rule on an id column gives Integer whatever else is
      declared; otherwise `bool` is tested before `numeric`, `numeric` before
      `integer`, and String is the default. */
  lemma KindPrecedence(tokens: seq<string>)
    ensures (exists t :: t in tokens && IsExistsId(t)) ==> KindOf(tokens) == IntegerType
    ensures (forall t :: t in tokens ==> !IsExistsId(t)) ==>
              ("bool" in tokens || "boolean" in tokens ==> KindOf(tokens) == BooleanType)
    ensures (forall t :: t in tokens ==> !IsExistsId(t)) && "bool" !in tokens && "boolean" !in tokens ==>
              ("numeric" in tokens ==> KindOf(tokens) == NumberType)
    ensures (forall t :: t in tokens ==> !IsExistsId(t)) && "bool" !in tokens && "boolean" !in tokens &&
            "numeric" !in tokens ==>
              ("integer" in tokens || "int" in tokens ==> KindOf(tokens) == IntegerType)
    ensures (forall t :: t in tokens ==> !IsExistsId(t)) && "bool" !in tokens && "boolean" !in tokens &&
            "numeric" !in tokens && "integer" !in tokens && "int" !in tokens ==>
              KindOf(tokens) == StringType
  {
  }

  /** `required|integer|min:18`, whatever the bound: a required Integer,
      without a minimum when `IntegerType` is not a `NumberType`. */
  lemma IntegerIgnoresMin(name: string, bound: string)
    ensures var p := ParamFromTokens(name, ["required", "integer", "min:" + bound]);
            p.required && p.schema.ty.kind == IntegerType && (!IntegerIsNumber ==> p.schema.ty.minimum.None?)
  {
    var tokens := ["required", "integer", "min:" + bound];
    IntegerRuleKind(bound);
    assert tokens[0] == "required";
  }

  /** The same rule when `IntegerType` is a `NumberType`: the minimum is the
      bound, as long as it is truthy and does not itself contain `min:`. */
  lemma IntegerTakesMin(name: string, bound: string)
    requires IntegerIsNumber && Truthy(bound) && !Contains(bound, "min:")
    ensures var p := ParamFromTokens(name, ["required", "integer", "min:" + bound]);
            p.required && p.schema.ty.kind == IntegerType && p.schema.ty.minimum == Some(bound)
  {
    var tokens := ["required", "integer", "min:" + bound];
    IntegerRuleKind(bound);
    assert tokens == ["required", "integer"] + ["min:" + bound] + [];
    assert forall t :: t in ["required", "integer"] ==> !StartsWith(t, "min:") by {
      assert "required"[0] == 'r' && "integer"[0] == 'i';
      forall t | t in ["required", "integer"] ensures !StartsWith(t, "min:") {
        if |t| >= 4 {
          assert t[..4][0] == t[0];
        }
      }
    }
    FirstBoundTokenWins(["required", "integer"], "min:", bound, []);
    assert tokens[0] == "required";
  }

  lemma IntegerRuleKind(bound: string)
    ensures KindOf(["required", "integer", "min:" + bound]) == IntegerType
  {
    var tokens := ["required", "integer", "min:" + bound];
    assert forall t :: t in tokens ==> |t| > 0 && t[0] != 'e' && t[0] != 'b' && t[0] != 'n' by {
      assert "required"[0] == 'r' && "integer"[0] == 'i' && ("min:" + bound)[0] == 'm';
    }
    assert forall t :: t in tokens ==> !IsExistsId(t) by {
      forall t | t in tokens ensures !IsExistsId(t) {
        if |t| >= 7 {
          assert t[..7][0] == t[0];
        }
      }
    }
    assert tokens[1] == "integer";
  }

  /** The kind depends only on which tokens occur. */
  lemma KindOfMembership(a: seq<string>, b: seq<string>)
    requires forall t :: t in a <==> t in b
    ensures KindOf(a) == KindOf(b)
  {
    if exists t :: t in a && IsExistsId(t) {
      var t :| t in a && IsExistsId(t);
      assert t in b;
    } else {
      assert forall t :: t in b && IsExistsId(t) ==> t in a;
      assert DeclaredKind(a) == DeclaredKind(b);
    }
  }

  /** The parameter depends only on the kind, the two flags, the first `in:`
      token and the two bounds. */
  lemma SameReadings(name: string, a: seq<string>, b: seq<string>)
    requires KindOf(a) == KindOf(b)
    requires ("nullable" in a) == ("nullable" in b) && ("required" in a) == ("required" in b)
    requires EnumOf(a) == EnumOf(b)
    requires BoundOf(a, "min:") == BoundOf(b, "min:") && BoundOf(a, "max:") == BoundOf(b, "max:")
    ensures ParamFromTokens(name, a) == ParamFromTokens(name, b)
  {
  }

  /** A token that is not an `in:` token does not move the enum. */
  lemma EnumSkips(a: seq<string>, x: string, b: seq<string>)
    requires !IsInRule(x)
    ensures EnumOf(a + [x] + b) == EnumOf(a + b)
  {
    FirstWhereSkips(a, x, b, IsInRule);
  }

  /** A token that does not start with the key does not move the bound. */
  lemma BoundSkips(a: seq<string>, x: string, b: seq<string>, key: string)
    requires !StartsWith(x, key)
    ensures BoundOf(a + [x] + b, key) == BoundOf(a + b, key)
  {
    FirstWhereSkips(a, x, b, KeyTest(key));
  }

  /** An extra `nullable` token where one already occurs adds no member. */
  lemma NullableAddsNoMember(a: seq<string>, b: seq<string>)
    requires "nullable" in a + b
    ensures KindOf(a + ["nullable"] + b) == KindOf(a + b)
    ensures "nullable" in a + ["nullable"] + b
    ensures ("required" in a + ["nullable"] + b) == ("required" in a + b)
  {
    var more := a + ["nullable"] + b;
    forall t ensures t in more <==> t in a + b {
      assert t in more <==> t in a || t == "nullable" || t in b;
    }
    KindOfMembership(more, a + b);
  }

  /** A repeated `nullable` token, wherever it is inserted, changes nothing. */
  lemma NullableIdempotent(name: string, tokens: seq<string>, i: nat)
    requires "nullable" in tokens
    requires i <= |tokens|
    ensures ParamFromTokens(name, tokens[..i] + ["nullable"] + tokens[i..]) == ParamFromTokens(name, tokens)
  {
    var a, b := tokens[..i], tokens[i..];
    assert a + b == tokens;
    NullableAddsNoMember(a, b);
    assert "nullable"[..3][0] == 'n' && "nullable"[..4][0] == 'n';
    EnumSkips(a, "nullable", b);
    BoundSkips(a, "nullable", b, "min:");
    BoundSkips(a, "nullable", b, "max:");
    SameReadings(name, a + ["nullable"] + b, tokens);
  }


  /** The first token starting with the key decides the bound, and a suffix
      that is neither empty nor "0" is taken as it is. */
  lemma {:induction false} FirstBoundTokenWins(before: seq<string>, key: string, v: string, after: seq<string>)
    requires |key| > 0
    requires forall t :: t in before ==> !StartsWith(t, key)
    requires !Contains(v, key) && Truthy(v)
    ensures BoundOf(before + [key + v] + after, key) == Some(v)
  {
    var tokens := before + [key + v] + after;
    var p := KeyTest(key);
    var first := FirstWhere(tokens, p);
    assert tokens[|before|] == key + v;
    assert (key + v)[..|key|] == key;
    assert first.Some?;
    var i :| 0 <= i < |tokens| && tokens[i] == first.value && p(tokens[i]) &&
             forall j :: 0 <= j < i ==> !p(tokens[j]);
    assert first.value == key + v;
    var kv := key + v;
    assert kv[..|key|] == key && kv[|key|..] == v;
    assert ReplaceAll(kv, key, "") == "" + ReplaceAll(v, key, "");
    ReplaceAllAbsent(v, key, "");
    assert first.GetOr("") == kv;
    assert ReplaceAll(first.GetOr(""), key, "") == v;
  }

  /** Without a token starting with the key there is no bound. */
  lemma NoBoundWithoutToken(tokens: seq<string>, key: string)
    requires |key| > 0
    requires forall t :: t in tokens ==> !StartsWith(t, key)
    ensures BoundOf(tokens, key) == None
  {
    assert FirstWhere(tokens, KeyTest(key)) == None;
  }

  // ---------------------------------------------------------------------
  // The `in:` list: decoding inverts quoting with doubled quotes

  /** A value written as an `in:` literal: quotes inside doubled. */
  function Escape(v: string): (e: string)
    ensures |e| >= |v|
    ensures |v| > 0 ==> |e| > 0 && (e[0] == '"' <==> v[0] == '"')
    ensures |v| > 0 ==> (e[|e| - 1] == '"' <==> v[|v| - 1] == '"')
    ensures forall c :: c in e ==> c == '"' || c in v
  {
    if |v| == 0 then ""
    else (if v[0] == '"' then "\"\"" else [v[0]]) + Escape(v[1..])
  }

  lemma {:induction false} EscapeQuoteFree(v: string)
    requires '"' !in v
    ensures Escape(v) == v
  {
    if |v| > 0 {
      EscapeQuoteFree(v[1..]);
      assert [v[0]] + v[1..] == v;
    }
  }

  function Quote(v: string): string {
    "\"" + Escape(v) + "\""
  }

  lemma QuoteWithoutQuotes(v: string)
    requires '"' !in v
    ensures Quote(v) == "\"" + v + "\""
  {
    EscapeQuoteFree(v);
  }

  function QuoteAll(values: seq<string>): (q: seq<string>)
    ensures |q| == |values| && forall i :: 0 <= i < |values| ==> q[i] == Quote(values[i])
  {
    seq(|values|, i requires 0 <= i < |values| => Quote(values[i]))
  }

  /** The `in:` token listing `values`, each quoted. */
  function EncodeEnum(values: seq<string>): string
    requires |values| >= 1
  {
    "in:" + Join(QuoteAll(values), ',')
  }

  /** A value the `in:` syntax can carry: no comma (the separator), no line
      feed (the `in:*` pattern stops there), and no quote at either end
      (`trim('"')` would eat it). */
  predicate Encodable(v: string) {
    ',' !in v && '\n' !in v && (|v| == 0 || (v[0] != '"' && v[|v| - 1] != '"'))
  }

  lemma {:induction false} CollapseAfterEscape(v: string)
    ensures ReplaceAll(Escape(v), "\"\"", "\"") == v
  {
    if |v| > 0 {
      var e := Escape(v);
      var tail := Escape(v[1..]);
      assert ReplaceAll(tail, "\"\"", "\"") == v[1..] by {
        CollapseAfterEscape(v[1..]);
      }
      if v[0] == '"' {
        assert e == "\"\"" + tail;
        assert e[..2] == "\"\"" && e[2..] == tail;
        assert ReplaceAll(e, "\"\"", "\"") == "\"" + v[1..];
      } else {
        assert e == [v[0]] + tail;
        assert e[1..] == tail;
        assert |e| < 2 || e[..2] != "\"\"";
        assert ReplaceAll(e, "\"\"", "\"") == [v[0]] + v[1..];
      }
      assert [v[0]] + v[1..] == v;
    }
  }

  lemma DecodeQuoted(v: string)
    requires Encodable(v)
    ensures DecodeLiteral(Quote(v)) == v
  {
    var e := Escape(v);
    var q := Quote(v);
    assert q == "\"" + e + "\"";
    assert Trim(q, '"') == e by {
      if |v| == 0 {
        assert q == "\"\"";
        assert TrimLeft(q, '"') == TrimLeft(q[1..], '"');
        assert TrimLeft(q[1..], '"') == TrimLeft(q[2..], '"');
        assert q[2..] == "";
      } else {
        assert q[1..] == e + "\"";
        assert TrimLeft(q, '"') == e + "\"";
        var w := e + "\"";
        assert w[..|w| - 1] == e;
        assert TrimRight(w, '"') == e;
      }
    }
    CollapseAfterEscape(v);
  }

  lemma {:induction false} JoinAvoids(parts: seq<string>, sep: char, c: char)
    requires |parts| >= 1 && c != sep
    requires forall k :: 0 <= k < |parts| ==> c !in parts[k]
    ensures c !in Join(parts, sep)
  {
    if |parts| > 1 {
      JoinAvoids(parts[1..], sep, c);
    }
  }

  /** Quoted encodable values contain neither a comma nor a line feed. */
  lemma QuotedSeparatorFree(values: seq<string>)
    requires forall k :: 0 <= k < |values| ==> Encodable(values[k])
    ensures forall k :: 0 <= k < |values| ==> ',' !in QuoteAll(values)[k] && '\n' !in QuoteAll(values)[k]
  {
    forall k | 0 <= k < |values| ensures ',' !in QuoteAll(values)[k] && '\n' !in QuoteAll(values)[k] {
      assert QuoteAll(values)[k] == "\"" + Escape(values[k]) + "\"";
    }
  }

  /** An encoded token is the first `in:` token of any list it heads. */
  lemma EncodedIsInRule(values: seq<string>, rest: seq<string>)
    requires |values| >= 1
    requires forall k :: 0 <= k < |values| ==> Encodable(values[k])
    ensures EnumOf([EncodeEnum(values)] + rest) == DecodeEnum(EncodeEnum(values))
  {
    var token := EncodeEnum(values);
    QuotedSeparatorFree(values);
    JoinAvoids(QuoteAll(values), ',', '\n');
    assert token[..3] == "in:";
    assert IsInRule(token);
    assert FirstWhere([token] + rest, IsInRule) == Some(token);
  }

  /** The text after `in:` splits back into the quoted values. */
  lemma EncodedSplits(values: seq<string>)
    requires |values| >= 1
    requires forall k :: 0 <= k < |values| ==> Encodable(values[k])
    ensures Split(ReplaceFirst(EncodeEnum(values), "in:", ""), ',') == QuoteAll(values)
  {
    var token := EncodeEnum(values);
    var body := Join(QuoteAll(values), ',');
    assert token[..3] == "in:" && token[3..] == body;
    assert ReplaceFirst(token, "in:", "") == body;
    QuotedSeparatorFree(values);
    JoinThenSplit(QuoteAll(values), ',');
  }

  /** A literal without quotes decodes to itself. */
  lemma DecodeUnquoted(v: string)
    requires '"' !in v
    ensures DecodeLiteral(v) == v
  {
    assert Trim(v, '"') == v by {
      assert |v| == 0 || v[0] != '"';
      assert TrimLeft(v, '"') == v;
      assert |v| == 0 || v[|v| - 1] != '"';
    }
    assert "\"\""[0] == '"';
    MissingCharNotContained(v, "\"\"", '"');
    ReplaceAllAbsent(v, "\"\"", "\"");
  }

  /** The unquoted form `in:a,b`: values without commas, quotes or line
      feeds come back as written, in order. */
  lemma PlainEnumRoundTrip(values: seq<string>, rest: seq<string>)
    requires |values| >= 1
    requires forall k :: 0 <= k < |values| ==> ',' !in values[k] && '"' !in values[k] && '\n' !in values[k]
    ensures EnumOf(["in:" + Join(values, ',')] + rest) == values
  {
    var token := "in:" + Join(values, ',');
    PlainIsInRule(values, rest);
    PlainSplits(values);
    var decoded := DecodeEnum(token);
    assert |decoded| == |values|;
    forall k | 0 <= k < |values| ensures decoded[k] == values[k] {
      DecodeUnquoted(values[k]);
    }
  }

  lemma PlainIsInRule(values: seq<string>, rest: seq<string>)
    requires |values| >= 1
    requires forall k :: 0 <= k < |values| ==> '\n' !in values[k]
    ensures EnumOf(["in:" + Join(values, ',')] + rest) == DecodeEnum("in:" + Join(values, ','))
  {
    var token := "in:" + Join(values, ',');
    JoinAvoids(values, ',', '\n');
    assert token[..3] == "in:";
    assert IsInRule(token);
    assert FirstWhere([token] + rest, IsInRule) == Some(token);
  }

  lemma PlainSplits(values: seq<string>)
    requires |values| >= 1
    requires forall k :: 0 <= k < |values| ==> ',' !in values[k]
    ensures Split(ReplaceFirst("in:" + Join(values, ','), "in:", ""), ',') == values
  {
    var body := Join(values, ',');
    var token := "in:" + body;
    assert token[..3] == "in:" && token[3..] == body;
    assert ReplaceFirst(token, "in:", "") == body;
    JoinThenSplit(values, ',');
  }

  /** Decoding an encoded `in:` token gives back the listed values, in order
      and with duplicates. */
  lemma EnumRoundTrip(values: seq<string>, rest: seq<string>)
    requires |values| >= 1
    requires forall k :: 0 <= k < |values| ==> Encodable(values[k])
    ensures EnumOf([EncodeEnum(values)] + rest) == values
  {
    EncodedIsInRule(values, rest);
    EncodedSplits(values);
    var decoded := DecodeEnum(EncodeEnum(values));
    assert |decoded| == |values|;
    forall k | 0 <= k < |values| ensures decoded[k] == values[k] {
      DecodeQuoted(values[k]);
    }
  }
}
