/** `Generator::getRoutePathParameters` (src/Generator.php:159-237): the alias
    map that pairs each route placeholder with a handler parameter name, and
    one `path` Parameter per placeholder whose type comes from the handler's
    signature, else from its `@param` doc tag, else is absent. */
module PathParameters {
  import opened Wrappers
  import opened Text
  import opened Seqs
  import opened Schema

  /** A parameter of the handler's signature as reflection reports it;
      `isRequest` says its declared class is Illuminate's Request or a subclass. */
  datatype HandlerParam = HandlerParam(name: string, typeName: Option<string>, isRequest: bool)

  /** A `@param` tag of the handler's doc comment; the name still carries its `$`. */
  datatype DocParam = DocParam(parameterName: string, typeName: Option<string>, description: string)

  predicate RequestTyped(p: HandlerParam) {
    p.typeName.Some? && p.isRequest
  }

  /** The signature parameters that can bind a placeholder: all except the
      Request-typed ones, in order. */
  function Bindable(params: seq<HandlerParam>): (r: seq<HandlerParam>)
    ensures |r| <= |params|
    ensures forall q :: q in r ==> q in params && !RequestTyped(q)
    ensures forall q :: q in params && !RequestTyped(q) ==> q in r
  {
    if |params| == 0 then []
    else
      var rest := Bindable(params[1..]);
      assert forall q :: q in params ==> q == params[0] || q in params[1..];
      if RequestTyped(params[0]) then rest else [params[0]] + rest
  }

  /** Request-typed parameters are dropped where they stand; the others keep
      their order. */
  lemma {:induction false} BindableConcat(a: seq<HandlerParam>, b: seq<HandlerParam>)
    ensures Bindable(a + b) == Bindable(a) + Bindable(b)
  {
    if |a| == 0 {
      assert a + b == b;
    } else {
      BindableConcat(a[1..], b);
      AppendTail(a, b);
      BindableFirst(a + b);
      BindableFirst(a);
      AppendAssociative(if RequestTyped(a[0]) then [] else [a[0]], Bindable(a[1..]), Bindable(b));
    }
  }

  lemma BindableFirst(params: seq<HandlerParam>)
    requires |params| > 0
    ensures Bindable(params) == (if RequestTyped(params[0]) then [] else [params[0]]) + Bindable(params[1..])
  {
  }

  lemma BindableOne(p: HandlerParam)
    ensures Bindable([p]) == if RequestTyped(p) then [] else [p]
  {
    assert [p][1..] == [];
  }

  function Names(params: seq<HandlerParam>): (names: seq<string>)
    ensures |names| == |params|
    ensures forall i :: 0 <= i < |params| ==> names[i] == params[i].name
  {
    seq(|params|, i requires 0 <= i < |params| => params[i].name)
  }

  // ---------------------------------------------------------------------
  // The alias map: a PHP array, ordered, one entry per key

  /** A PHP string-keyed array: entries in insertion order. */
  type Entries = seq<(string, string)>

  function Keys(m: Entries): (ks: seq<string>)
    ensures |ks| == |m|
    ensures forall i :: 0 <= i < |m| ==> ks[i] == m[i].0
  {
    seq(|m|, i requires 0 <= i < |m| => m[i].0)
  }

  predicate Distinct(s: seq<string>) {
    forall i, j :: 0 <= i < j < |s| ==> s[i] != s[j]
  }

  /** `$m[$k]`, absent when there is no entry for the key. */
  function Lookup(m: Entries, k: string): (v: Option<string>)
    ensures v.None? <==> k !in Keys(m)
  {
    if |m| == 0 then None
    else if m[0].0 == k then Some(m[0].1)
    else
      assert Keys(m) == [m[0].0] + Keys(m[1..]);
      Lookup(m[1..], k)
  }

  /** `$m[$k] = $v`: overwrites the value in place when the key is present,
      appends an entry otherwise. */
  function Put(m: Entries, k: string, v: string): Entries {
    if |m| == 0 then [(k, v)]
    else if m[0].0 == k then [(k, v)] + m[1..]
    else [m[0]] + Put(m[1..], k, v)
  }

  /** After the assignment the key reads the new value and every other key
      reads what it read before. */
  lemma {:induction false} PutLookup(m: Entries, k: string, v: string, k': string)
    ensures Lookup(Put(m, k, v), k') == if k' == k then Some(v) else Lookup(m, k')
  {
    if |m| > 0 && m[0].0 != k {
      PutLookup(m[1..], k, v, k');
    }
  }

  /** The assignment leaves the key order as it was when the key is present
      and adds the key at the end otherwise. */
  lemma {:induction false} PutKeys(m: Entries, k: string, v: string)
    ensures Keys(Put(m, k, v)) == if k in Keys(m) then Keys(m) else Keys(m) + [k]
  {
    var r := Put(m, k, v);
    if |m| == 0 {
      assert Keys(r) == [k];
    } else {
      var rest := Keys(m[1..]);
      assert Keys(m) == [m[0].0] + rest;
      if m[0].0 == k {
        assert Keys(r) == [k] + rest;
      } else {
        PutKeys(m[1..], k, v);
        assert Keys(r) == [m[0].0] + Keys(Put(m[1..], k, v));
      }
    }
  }

  /** The assignment keeps the keys distinct. */
  lemma PutDistinct(m: Entries, k: string, v: string)
    requires Distinct(Keys(m))
    ensures Distinct(Keys(Put(m, k, v)))
  {
    PutKeys(m, k, v);
  }

  /** A new key is appended at the end. */
  lemma PutAppends(m: Entries, k: string, v: string)
    requires k !in Keys(m)
    ensures Put(m, k, v) == m + [(k, v)]
  {
    assert forall i :: 0 <= i < |m| ==> m[i].0 != k by {
      forall i | 0 <= i < |m| ensures m[i].0 != k {
        assert Keys(m)[i] == m[i].0;
      }
    }
    PutAppendsFrom(m, k, v);
  }

  lemma {:induction false} PutAppendsFrom(m: Entries, k: string, v: string)
    requires forall i :: 0 <= i < |m| ==> m[i].0 != k
    ensures Put(m, k, v) == m + [(k, v)]
  {
    if |m| > 0 {
      var tail := m[1..];
      assert forall i :: 0 <= i < |tail| ==> tail[i].0 != k by {
        forall i | 0 <= i < |tail| ensures tail[i].0 != k {
          assert tail[i] == m[i + 1];
        }
      }
      PutAppendsFrom(tail, k, v);
      calc {
        Put(m, k, v);
        [m[0]] + Put(tail, k, v);
        [m[0]] + (tail + [(k, v)]);
        { assert [m[0]] + tail == m; }
        m + [(k, v)];
      }
    }
  }

  /** Assigning every key to itself keeps an identity array an identity array. */
  lemma {:induction false} IdentityPut(m: Entries, k: string)
    requires forall e :: e in m ==> e.0 == e.1
    ensures forall e :: e in Put(m, k, k) ==> e.0 == e.1
  {
    if |m| > 0 && m[0].0 != k {
      IdentityPut(m[1..], k);
    }
  }

  /** `collect($keys)->mapWithKeys(fn ($name, $i) => [$name => $values[$i]])`:
      the pairs put in order, a later duplicate key overwriting an earlier one. */
  function Zip(keys: seq<string>, values: seq<string>): (m: Entries)
    requires |keys| == |values|
  {
    if |keys| == 0 then []
    else
      var n := |keys| - 1;
      Put(Zip(keys[..n], values[..n]), keys[n], values[n])
  }

  /** One entry per distinct key. */
  lemma {:induction false} ZipKeys(keys: seq<string>, values: seq<string>)
    requires |keys| == |values|
    ensures Distinct(Keys(Zip(keys, values)))
    ensures forall k :: k in Keys(Zip(keys, values)) <==> k in keys
  {
    if |keys| > 0 {
      var n := |keys| - 1;
      ZipKeys(keys[..n], values[..n]);
      PutKeys(Zip(keys[..n], values[..n]), keys[n], values[n]);
      PutDistinct(Zip(keys[..n], values[..n]), keys[n], values[n]);
      assert keys == keys[..n] + [keys[n]];
    }
  }

  /** `$paramsWithRealNames`: the bindable handler parameter names, or the
      placeholder names themselves when the two lists differ in length. */
  function RealNames(placeholders: seq<string>, params: seq<HandlerParam>): seq<string> {
    var names := Names(Bindable(params));
    if |placeholders| != |names| then placeholders else names
  }

  /** The alias map `$aliases`. */
  function AliasMap(placeholders: seq<string>, params: seq<HandlerParam>): Entries {
    Zip(placeholders, RealNames(placeholders, params))
  }

  /** Every placeholder's entry holds the value paired with its last occurrence. */
  lemma {:induction false} ZipLookup(keys: seq<string>, values: seq<string>, i: nat)
    requires |keys| == |values| && i < |keys|
    requires forall j :: i < j < |keys| ==> keys[j] != keys[i]
    ensures Lookup(Zip(keys, values), keys[i]) == Some(values[i])
  {
    var n := |keys| - 1;
    PutLookup(Zip(keys[..n], values[..n]), keys[n], values[n], keys[i]);
    if i < n {
      ZipLookup(keys[..n], values[..n], i);
    }
  }

  /** With distinct placeholders the map is the plain positional zip. */
  lemma {:induction false} ZipDistinct(keys: seq<string>, values: seq<string>)
    requires |keys| == |values| && Distinct(keys)
    ensures Zip(keys, values) == seq(|keys|, i requires 0 <= i < |keys| => (keys[i], values[i]))
  {
    if |keys| > 0 {
      var n := |keys| - 1;
      var init := Zip(keys[..n], values[..n]);
      ZipDistinct(keys[..n], values[..n]);
      ZipKeys(keys[..n], values[..n]);
      assert keys[n] !in keys[..n];
      PutAppends(init, keys[n], values[n]);
    }
  }

  /** One entry per placeholder name, and every placeholder has an alias. */
  lemma AliasMapKeys(placeholders: seq<string>, params: seq<HandlerParam>)
    ensures Distinct(Keys(AliasMap(placeholders, params)))
    ensures forall k :: k in Keys(AliasMap(placeholders, params)) <==> k in placeholders
    ensures Distinct(placeholders) ==> |AliasMap(placeholders, params)| == |placeholders|
  {
    ZipKeys(placeholders, RealNames(placeholders, params));
    if Distinct(placeholders) {
      ZipDistinct(placeholders, RealNames(placeholders, params));
    }
  }

  /** When the bindable handler parameters cannot be lined up with the
      placeholders, every placeholder is its own alias. */
  lemma {:induction false} AliasMapFallsBackToIdentity(placeholders: seq<string>, params: seq<HandlerParam>)
    requires |placeholders| != |Bindable(params)|
    ensures forall e :: e in AliasMap(placeholders, params) ==> e.0 == e.1
    ensures forall p :: p in placeholders ==> Lookup(AliasMap(placeholders, params), p) == Some(p)
  {
    IdentityZip(placeholders);
  }

  lemma {:induction false} IdentityZip(keys: seq<string>)
    ensures forall e :: e in Zip(keys, keys) ==> e.0 == e.1
    ensures forall k :: k in keys ==> Lookup(Zip(keys, keys), k) == Some(k)
  {
    if |keys| > 0 {
      var n := |keys| - 1;
      IdentityZip(keys[..n]);
      IdentityPut(Zip(keys[..n], keys[..n]), keys[n]);
      forall k | k in keys ensures Lookup(Zip(keys, keys), k) == Some(k) {
        PutLookup(Zip(keys[..n], keys[..n]), keys[n], keys[n], k);
        assert keys == keys[..n] + [keys[n]];
      }
    }
  }

  /** When the lengths agree and the placeholders are distinct, placeholder i
      is renamed to the i-th bindable handler parameter. */
  lemma AliasMapPositional(placeholders: seq<string>, params: seq<HandlerParam>, i: nat)
    requires |placeholders| == |Bindable(params)| && Distinct(placeholders) && i < |placeholders|
    ensures Lookup(AliasMap(placeholders, params), placeholders[i]) == Some(Bindable(params)[i].name)
  {
    ZipLookup(placeholders, RealNames(placeholders, params), i);
  }

  // ---------------------------------------------------------------------
  // Humanizing a parameter name: `Str::of($name)->kebab()->replace(['-', '_'], ' ')`

  /** The whitespace `ucwords` splits on and PCRE `\s` removes (ASCII). */
  predicate IsSpace(c: char) {
    c == ' ' || c == '\t' || c == '\n' || c == '\r' || c == '\U{B}' || c == '\U{C}'
  }

  /** `ucwords`: upper-cases the first character and each one after whitespace. */
  function UcWordsFrom(s: string, capitalize: bool): (r: string)
    ensures |r| == |s|
  {
    if |s| == 0 then ""
    else [if capitalize then UpperChar(s[0]) else s[0]] + UcWordsFrom(s[1..], IsSpace(s[0]))
  }

  /** `preg_replace('/\s+/u', '', ...)` */
  function RemoveSpaces(s: string): string {
    if |s| == 0 then ""
    else (if IsSpace(s[0]) then "" else [s[0]]) + RemoveSpaces(s[1..])
  }

  /** `preg_replace('/(.)(?=[A-Z])/u', '$1' . d, ...)`: the delimiter goes
      after every character (but a line feed) that precedes an upper-case letter. */
  function Delimit(s: string, d: char): string {
    if |s| <= 1 then s
    else [s[0]] + (if IsUpper(s[1]) && s[0] != '\n' then [d] else []) + Delimit(s[1..], d)
  }

  /** `ctype_lower`: non-empty and only lower-case letters. */
  predicate AllLower(s: string) {
    |s| > 0 && forall i :: 0 <= i < |s| ==> IsLower(s[i])
  }

  /** `Str::snake($s, $d)` */
  function Snake(s: string, d: char): string {
    if AllLower(s) then s else Lower(Delimit(RemoveSpaces(UcWordsFrom(s, true)), d))
  }

  /** The words of a parameter name, lower-cased and space-separated. */
  function Humanize(name: string): (h: string)
    ensures '-' !in h && '_' !in h
    ensures forall i :: 0 <= i < |h| ==> !IsUpper(h[i])
  {
    var kebab := Snake(name, '-');
    var dashless := ReplaceAll(kebab, "-", " ");
    var h := ReplaceAll(dashless, "_", " ");
    ReplaceAllRemovesChar(kebab, '-', " ");
    ReplaceAllChars(dashless, "_", " ");
    ReplaceAllRemovesChar(dashless, '_', " ");
    ReplaceAllChars(kebab, "-", " ");
    assert forall c :: c in kebab ==> !IsUpper(c) by {
      if !AllLower(name) {
        LowerHasNoUpper(Delimit(RemoveSpaces(UcWordsFrom(name, true)), '-'));
      }
    }
    h
  }

  /** A name that is already one lower-case word is kept as it is. */
  lemma HumanizeLowerWord(name: string)
    requires AllLower(name)
    ensures Humanize(name) == name
  {
    assert '-' !in name && '_' !in name;
    ContainsChar(name, '-');
    ContainsChar(name, '_');
    ReplaceAllAbsent(name, "-", " ");
    ReplaceAllAbsent(name, "_", " ");
  }

  /** A camel-case name of two words, as in `userId`: the words are
      separated by a space and the second loses its capital. */
  lemma HumanizeCamel(w1: string, u: char, w2: string)
    requires AllLower(w1) && IsUpper(u) && AllLower(w2)
    ensures Humanize(w1 + [u] + w2) == w1 + " " + [LowerChar(u)] + w2
  {
    var kebab := w1 + "-" + [LowerChar(u)] + w2;
    assert Snake(w1 + [u] + w2, '-') == kebab by {
      SnakeCamel(w1, u, w2);
    }
    assert ReplaceAll(kebab, "-", " ") == w1 + " " + ([LowerChar(u)] + w2) by {
      assert kebab == w1 + ['-'] + ([LowerChar(u)] + w2);
      ReplaceCharOnce(w1, '-', [LowerChar(u)] + w2, " ");
    }
    assert ReplaceAll(w1 + " " + ([LowerChar(u)] + w2), "_", " ") == w1 + " " + ([LowerChar(u)] + w2) by {
      ContainsChar(w1 + " " + ([LowerChar(u)] + w2), '_');
      ReplaceAllAbsent(w1 + " " + ([LowerChar(u)] + w2), "_", " ");
    }
  }

  /** A snake-case name of two words, as in `post_id`: the underscore becomes
      a space. */
  lemma HumanizeSnake(w1: string, w2: string)
    requires AllLower(w1) && AllLower(w2)
    ensures Humanize(w1 + "_" + w2) == w1 + " " + w2
  {
    var name := w1 + "_" + w2;
    assert Snake(name, '-') == name by {
      SnakeUnderscore(w1, w2);
    }
    assert ReplaceAll(name, "-", " ") == name by {
      ContainsChar(name, '-');
      ReplaceAllAbsent(name, "-", " ");
    }
    assert name == w1 + ['_'] + w2;
    ReplaceCharOnce(w1, '_', w2, " ");
  }

  lemma SnakeCamel(w1: string, u: char, w2: string)
    requires AllLower(w1) && IsUpper(u) && AllLower(w2)
    ensures Snake(w1 + [u] + w2, '-') == w1 + "-" + [LowerChar(u)] + w2
  {
    var name := w1 + [u] + w2;
    var head := [UpperChar(w1[0])] + w1[1..];
    var tail := [u] + w2;
    assert name == [w1[0]] + (w1[1..] + tail);
    assert !AllLower(name) by {
      assert name[|w1|] == u;
    }
    assert UcWordsFrom(name, true) == head + tail by {
      UcWordsFirst(w1[0], w1[1..] + tail);
    }
    assert Delimit(RemoveSpaces(head + tail), '-') == head + "-" + tail by {
      RemoveSpacesKeeps(head + tail);
      DelimitBefore(head, tail, '-');
      DelimitKeeps(tail, '-');
    }
    assert Lower(head + "-" + tail) == w1 + "-" + [LowerChar(u)] + w2 by {
      LowerConcat(head + "-", tail);
      LowerConcat(head, "-");
      LowerCapitalized(w1);
      LowerConcat([u], w2);
      LowerKeeps(w2);
    }
  }

  lemma SnakeUnderscore(w1: string, w2: string)
    requires AllLower(w1) && AllLower(w2)
    ensures Snake(w1 + "_" + w2, '-') == w1 + "_" + w2
  {
    var name := w1 + "_" + w2;
    assert forall i :: 0 <= i < |name| ==> IsLower(name[i]) || name[i] == '_';
    assert !AllLower(name) by {
      assert name[|w1|] == '_';
    }
    var upper := [UpperChar(name[0])] + name[1..];
    assert UcWordsFrom(name, true) == upper by {
      UcWordsFirst(name[0], name[1..]);
      assert [name[0]] + name[1..] == name;
    }
    assert Delimit(RemoveSpaces(upper), '-') == upper by {
      RemoveSpacesKeeps(upper);
      DelimitKeeps(upper, '-');
    }
    LowerCapitalized(name);
  }

  /** `ucwords` capitalizes only the first character of text without
      whitespace. */
  lemma UcWordsFirst(c: char, rest: string)
    requires !IsSpace(c)
    requires forall i :: 0 <= i < |rest| ==> !IsSpace(rest[i])
    ensures UcWordsFrom([c] + rest, true) == [UpperChar(c)] + rest
  {
    assert ([c] + rest)[1..] == rest;
    UcWordsKeeps(rest);
  }

  /** Lower-casing undoes the capital `ucfirst` gave a word. */
  lemma LowerCapitalized(w: string)
    requires |w| > 0 && IsLower(w[0]) && forall i :: 0 < i < |w| ==> !IsUpper(w[i])
    ensures Lower([UpperChar(w[0])] + w[1..]) == w
  {
    LowerConcat([UpperChar(w[0])], w[1..]);
    LowerKeeps(w[1..]);
    assert [w[0]] + w[1..] == w;
  }

  /** `ucwords` changes nothing after the first character of text without
      whitespace. */
  lemma {:induction false} UcWordsKeeps(s: string)
    requires forall i :: 0 <= i < |s| ==> !IsSpace(s[i])
    ensures UcWordsFrom(s, false) == s
  {
    if |s| > 0 {
      UcWordsKeeps(s[1..]);
    }
  }

  lemma {:induction false} RemoveSpacesKeeps(s: string)
    requires forall i :: 0 <= i < |s| ==> !IsSpace(s[i])
    ensures RemoveSpaces(s) == s
  {
    if |s| > 0 {
      RemoveSpacesKeeps(s[1..]);
    }
  }

  /** No delimiter goes into text whose letters after the first are not
      capitals. */
  lemma {:induction false} DelimitKeeps(s: string, d: char)
    requires forall i :: 0 < i < |s| ==> !IsUpper(s[i])
    ensures Delimit(s, d) == s
  {
    if |s| > 1 {
      DelimitKeeps(s[1..], d);
    }
  }

  /** The delimiter goes before a capital that follows such text. */
  lemma {:induction false} DelimitBefore(a: string, b: string, d: char)
    requires |a| > 0 && a[|a| - 1] != '\n' && forall i :: 0 < i < |a| ==> !IsUpper(a[i])
    requires |b| > 0 && IsUpper(b[0])
    ensures Delimit(a + b, d) == a + [d] + Delimit(b, d)
  {
    if |a| == 1 {
      assert (a + b)[1..] == b;
    } else {
      assert (a + b)[1..] == a[1..] + b;
      DelimitBefore(a[1..], b, d);
      assert [a[0]] + a[1..] == a;
    }
  }

  /** The description synthesized for an identifier parameter. */
  function IdDescription(name: string): string {
    "The " + Humanize(name) + " ID"
  }

  // ---------------------------------------------------------------------
  // Resolving one placeholder

  /** The schema class `$schemaTypesMap` gives a type name, Integer for any
      name not in the table. */
  function TableKind(t: string): Kind {
    if t == "int" then IntegerType
    else if t == "float" then NumberType
    else if t == "string" then StringType
    else if t == "bool" then BooleanType
    else IntegerType
  }

  predicate InTable(t: string) {
    t == "int" || t == "float" || t == "string" || t == "bool"
  }

  /** `$type ? ($schemaTypesMap[$type] ?? new IntegerType) : new StringType` */
  function KindOfType(t: Option<string>): Kind {
    if t.Some? && Truthy(t.value) then TableKind(t.value) else StringType
  }

  function DocKey(d: DocParam): string {
    ReplaceAll(d.parameterName, "$", "")
  }

  function NamedParam(name: string): HandlerParam -> bool {
    (p: HandlerParam) => p.name == name
  }

  function NamedDoc(name: string): DocParam -> bool {
    (d: DocParam) => DocKey(d) == name
  }

  /** `$type` after both overrides: the reflection type when the parameter has
      one, else the `@param` type, else none. */
  function TypeFor(reflection: Option<HandlerParam>, doc: Option<DocParam>): Option<string> {
    if reflection.Some? && reflection.value.typeName.Some? then reflection.value.typeName
    else if doc.Some? then doc.value.typeName
    else None
  }

  /** `$description` before synthesis: the `@param` text when it is truthy. */
  function DocDescription(doc: Option<DocParam>): string {
    if doc.Some? && Truthy(doc.value.description) then doc.value.description else ""
  }

  /** The required flag a path Parameter gets from `Parameter::make`, which
      the resolver never sets; that class is not part of this model, so the
      flag is left unknown. */
  const PathRequiredDefault: bool

  /** The Parameter for the placeholder whose alias is `name`. */
  function ResolveParam(name: string, bindable: seq<HandlerParam>, docs: seq<DocParam>): (p: Parameter)
    ensures p.name == name && p.location == Path && p.required == PathRequiredDefault
    ensures p.schema.enumValues == [] && p.schema.ty.minimum.None? && p.schema.ty.maximum.None? && !p.schema.ty.nullable
  {
    var reflection := LastWhere(bindable, NamedParam(name));
    var doc := LastWhere(docs, NamedDoc(name));
    var t := TypeFor(reflection, doc);
    var description := DocDescription(doc);
    var synthesize := t.Some? && Truthy(t.value) && !InTable(t.value) && description == "";
    Parameter(name, Path, if synthesize then IdDescription(name) else description, PathRequiredDefault,
              Schema(Plain(KindOfType(t)), []))
  }

  /** `getRoutePathParameters`: the path parameters, one per placeholder in
      order and named by its alias, and the alias map. A missing doc comment
      is `None`. */
  function RoutePathParameters(placeholders: seq<string>, params: seq<HandlerParam>, docs: Option<seq<DocParam>>)
    : (r: (seq<Parameter>, Entries))
    ensures r.1 == AliasMap(placeholders, params)
    ensures |r.0| == |placeholders|
    ensures forall i :: 0 <= i < |placeholders| ==>
              Lookup(r.1, placeholders[i]) == Some(r.0[i].name) && r.0[i].location == Path
    ensures forall i :: 0 <= i < |placeholders| ==>
              r.0[i] == ResolveParam(Lookup(r.1, placeholders[i]).GetOr(placeholders[i]), Bindable(params), docs.GetOr([]))
  {
    var aliases := AliasMap(placeholders, params);
    assert forall i :: 0 <= i < |placeholders| ==> Lookup(aliases, placeholders[i]).Some? by {
      AliasMapKeys(placeholders, params);
    }
    var bindable := Bindable(params);
    var docList := docs.GetOr([]);
    var ps := seq(|placeholders|, i requires 0 <= i < |placeholders| =>
                ResolveParam(Lookup(aliases, placeholders[i]).GetOr(placeholders[i]), bindable, docList));
    (ps, aliases)
  }

  // ---------------------------------------------------------------------
  // Properties of the resolution

  /** The signature's type wins over the doc type; the doc type is used only
      when the signature gives none; with neither the kind is String. */
  lemma TypePriority(name: string, bindable: seq<HandlerParam>, docs: seq<DocParam>, i: nat)
    requires i < |bindable| && bindable[i].name == name && bindable[i].typeName.Some?
    requires forall j :: i < j < |bindable| ==> bindable[j].name != name
    ensures ResolveParam(name, bindable, docs).schema.ty.kind == KindOfType(bindable[i].typeName)
  {
    var reflection := LastWhere(bindable, NamedParam(name));
    assert NamedParam(name)(bindable[i]);
    var k :| 0 <= k < |bindable| && bindable[k] == reflection.value && NamedParam(name)(bindable[k]) &&
             forall j :: k < j < |bindable| ==> !NamedParam(name)(bindable[j]);
  }

  lemma DocTypeWhenSignatureUntyped(name: string, bindable: seq<HandlerParam>, docs: seq<DocParam>, i: nat)
    requires forall q :: q in bindable && q.name == name ==> q.typeName.None?
    requires i < |docs| && DocKey(docs[i]) == name
    requires forall j :: i < j < |docs| ==> DocKey(docs[j]) != name
    ensures ResolveParam(name, bindable, docs).schema.ty.kind == KindOfType(docs[i].typeName)
  {
    var doc := LastWhere(docs, NamedDoc(name));
    assert NamedDoc(name)(docs[i]);
    var k :| 0 <= k < |docs| && docs[k] == doc.value && NamedDoc(name)(docs[k]) &&
             forall j :: k < j < |docs| ==> !NamedDoc(name)(docs[j]);
    var reflection := LastWhere(bindable, NamedParam(name));
    if reflection.Some? {
      var m :| 0 <= m < |bindable| && bindable[m] == reflection.value && NamedParam(name)(bindable[m]);
      assert bindable[m] in bindable;
    }
  }

  lemma UntypedIsString(name: string, bindable: seq<HandlerParam>, docs: seq<DocParam>)
    requires forall q :: q in bindable && q.name == name ==> q.typeName.None?
    requires forall d :: d in docs && DocKey(d) == name ==> d.typeName.None?
    ensures ResolveParam(name, bindable, docs).schema.ty.kind == StringType
  {
    var reflection := LastWhere(bindable, NamedParam(name));
    if reflection.Some? {
      var m :| 0 <= m < |bindable| && bindable[m] == reflection.value && NamedParam(name)(bindable[m]);
      assert bindable[m] in bindable;
    }
    var doc := LastWhere(docs, NamedDoc(name));
    if doc.Some? {
      var m :| 0 <= m < |docs| && docs[m] == doc.value && NamedDoc(name)(docs[m]);
      assert docs[m] in docs;
    }
  }

  /** A type name outside the four-entry table maps to Integer, and the
      parameter is described as an identifier unless its doc says otherwise. */
  lemma UnknownTypeIsIdentifier(name: string, bindable: seq<HandlerParam>, docs: seq<DocParam>)
    requires TypeFor(LastWhere(bindable, NamedParam(name)), LastWhere(docs, NamedDoc(name))).Some?
    requires var t := TypeFor(LastWhere(bindable, NamedParam(name)), LastWhere(docs, NamedDoc(name))).value;
             Truthy(t) && !InTable(t)
    ensures ResolveParam(name, bindable, docs).schema.ty.kind == IntegerType
    ensures var d := DocDescription(LastWhere(docs, NamedDoc(name)));
            ResolveParam(name, bindable, docs).description == if d == "" then IdDescription(name) else d
  {
  }

  /** A parameter typed with one of the four table entries keeps its doc
      description (or none) and gets the table's kind. */
  lemma KnownTypeKeepsDescription(name: string, bindable: seq<HandlerParam>, docs: seq<DocParam>)
    requires var t := TypeFor(LastWhere(bindable, NamedParam(name)), LastWhere(docs, NamedDoc(name)));
             t.Some? && InTable(t.value)
    ensures ResolveParam(name, bindable, docs).description == DocDescription(LastWhere(docs, NamedDoc(name)))
    ensures var t := TypeFor(LastWhere(bindable, NamedParam(name)), LastWhere(docs, NamedDoc(name)));
            ResolveParam(name, bindable, docs).schema.ty.kind == TableKind(t.value)
  {
  }

  /** A route like `PUT users/{user}` handled by `update(User $user)` with no
      doc comment: one path parameter named after the placeholder, an
      Integer, described as "The user ID". */
  lemma ModelBoundPlaceholder(name: string, modelClass: string)
    requires AllLower(name) && Truthy(modelClass) && !InTable(modelClass)
    ensures var r := RoutePathParameters([name], [HandlerParam(name, Some(modelClass), false)], None);
            r.0 == [Parameter(name, Path, "The " + name + " ID", PathRequiredDefault, Schema(Plain(IntegerType), []))]
  {
    var params := [HandlerParam(name, Some(modelClass), false)];
    assert Bindable(params) == params;
    assert RealNames([name], params) == [name];
    assert Zip([name], [name]) == Put(Zip([], []), name, name);
    assert AliasMap([name], params) == [(name, name)];
    assert LastWhere(params, NamedParam(name)) == Some(params[0]);
    HumanizeLowerWord(name);
    assert IdDescription(name) == "The " + name + " ID";
  }
}
