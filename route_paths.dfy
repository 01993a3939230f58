/** The path under which an operation is filed: the route URI with its
    placeholders renamed through the alias map (src/Generator.php:145), then
    with every `api/` removed (src/Generator.php:48).

    `ReplaceEach` is the renaming as the code writes it: `str_replace` with
    the alias keys and values, which rewrites every occurrence of a
    placeholder name anywhere in the URI, literal segments included.
    The operations are filed under that path, as the code does.
    `RenamePlaceholders` is the renaming the code evidently means, which
    touches only the `{name}` and `{name?}` placeholders;
    `ReplaceAgreesWithRename` shows the two agree as long as the alias key
    does not occur in the literal text before the placeholder. */
module RoutePaths {
  import opened Wrappers
  import opened Text
  import opened PathParameters

  // ---------------------------------------------------------------------
  // As written: str_replace over the whole URI

  /** `Str::replace(array_keys($m), array_values($m), $uri)`: `str_replace`
      with arrays applies each search/replacement pair, in the array's order,
      to the result of the previous one. */
  function ReplaceEach(uri: string, m: Entries): string
    decreases |m|
  {
    if |m| == 0 then uri else ReplaceEach(ReplaceAll(uri, m[0].0, m[0].1), m[1..])
  }

  /** With the identity alias map the substitution changes nothing. */
  lemma {:induction false} ReplaceEachIdentity(uri: string, m: Entries)
    requires forall e :: e in m ==> e.0 == e.1
    ensures ReplaceEach(uri, m) == uri
  {
    if |m| > 0 {
      ReplaceAllSelf(uri, m[0].0);
      ReplaceEachIdentity(uri, m[1..]);
    }
  }

  /** `posts/{post}` handled by a method whose parameter is `$id`: the alias
      map is `post => id`, and the literal segment `posts` is rewritten too. */
  lemma LiteralTextRenamed()
    ensures ReplaceEach("posts/{post}", [("post", "id")]) == "ids/{id}"
  {
    ReplaceEachSingle("posts/{post}", "post", "id");
    HeadRenamed();
    TailRenamed();
  }

  /** A one-entry alias map is a single `str_replace`. */
  lemma ReplaceEachSingle(uri: string, k: string, v: string)
    ensures ReplaceEach(uri, [(k, v)]) == ReplaceAll(uri, k, v)
  {
    assert [(k, v)][1..] == [];
  }

  /** The literal `post` at the start of that URI matches the name. */
  lemma HeadRenamed()
    ensures ReplaceAll("posts/{post}", "post", "id") == "id" + ReplaceAll("s/{post}", "post", "id")
  {
    var uri := "posts/{post}";
    assert uri[..4] == "post";
    assert uri[4..] == "s/{post}";
  }

  /** The rest of that URI: only the placeholder's name matches. */
  lemma TailRenamed()
    ensures ReplaceAll("s/{post}", "post", "id") == "s/{id}"
  {
    var tail := "s/{post}";
    assert ReplaceAll(tail[3..], "post", "id") == "id}" by {
      assert tail[3..] == "post}";
      assert tail[3..][..4] == "post";
      assert tail[3..][4..] == "}";
      assert ReplaceAll("}", "post", "id") == "}";
    }
    assert tail[..4] != "post";
    assert tail[1..] == "/{post}";
    assert tail[1..][..4] != "post";
    assert tail[2..] == "{post}";
    assert tail[2..][..4] != "post";
    assert tail[2..][1..] == tail[3..];
    assert tail[1..][1..] == tail[2..];
  }

  // ---------------------------------------------------------------------
  // Corrected: only placeholders are renamed

  /** The position of the first `c` in `s`. */
  function IndexOf(s: string, c: char): (i: nat)
    requires c in s
    ensures i < |s| && s[i] == c && c !in s[..i]
  {
    if s[0] == c then 0
    else
      assert s == [s[0]] + s[1..];
      var i := IndexOf(s[1..], c);
      assert s[..i + 1] == [s[0]] + s[1..][..i];
      i + 1
  }

  /** The text between the braces of a placeholder, renamed: a trailing `?`
      marks an optional placeholder and is kept; the name is looked up in the
      alias map and kept when it has no entry. */
  function RenameHole(inner: string, m: Entries): string {
    var optional := |inner| > 0 && inner[|inner| - 1] == '?';
    var name := if optional then inner[..|inner| - 1] else inner;
    Lookup(m, name).GetOr(name) + (if optional then "?" else "")
  }

  /** The URI with each `{name}` and `{name?}` renamed through `m`, every
      other character kept. */
  function RenamePlaceholders(uri: string, m: Entries): string
    decreases |uri|
  {
    if |uri| == 0 then ""
    else if uri[0] == '{' && '}' in uri[1..] then
      var j := IndexOf(uri[1..], '}');
      "{" + RenameHole(uri[1..j + 1], m) + "}" + RenamePlaceholders(uri[j + 2..], m)
    else [uri[0]] + RenamePlaceholders(uri[1..], m)
  }

  /** A URI template as the router reads it: literal text and placeholders. */
  datatype Segment = Literal(text: string) | Placeholder(name: string, optional: bool)

  /** Literal text opens no placeholder, and a name neither closes one nor
      carries the optional mark. */
  predicate WellFormed(segs: seq<Segment>) {
    forall k :: 0 <= k < |segs| ==>
      match segs[k]
      case Literal(t) => '{' !in t
      case Placeholder(n, _) => '}' !in n && '?' !in n
  }

  function RenderSegment(s: Segment): string {
    match s
    case Literal(t) => t
    case Placeholder(n, opt) => "{" + n + (if opt then "?" else "") + "}"
  }

  function Render(segs: seq<Segment>): string {
    if |segs| == 0 then "" else RenderSegment(segs[0]) + Render(segs[1..])
  }

  /** The intended renaming on the template: placeholders take their alias,
      literal text stays as it is. */
  function RenameSegments(segs: seq<Segment>, m: Entries): (r: seq<Segment>)
    ensures |r| == |segs|
    ensures forall k :: 0 <= k < |segs| && segs[k].Literal? ==> r[k] == segs[k]
    ensures forall k :: 0 <= k < |segs| && segs[k].Placeholder? ==>
              r[k] == Placeholder(Lookup(m, segs[k].name).GetOr(segs[k].name), segs[k].optional)
  {
    seq(|segs|, k requires 0 <= k < |segs| =>
      match segs[k]
      case Literal(t) => Literal(t)
      case Placeholder(n, opt) => Placeholder(Lookup(m, n).GetOr(n), opt))
  }

  /** Literal text without an opening brace passes through unchanged. */
  lemma {:induction false} RenameLiteralPrefix(t: string, rest: string, m: Entries)
    requires '{' !in t
    ensures RenamePlaceholders(t + rest, m) == t + RenamePlaceholders(rest, m)
  {
    if |t| > 0 {
      assert '{' !in t[1..] && t[0] != '{' by {
        assert t == [t[0]] + t[1..];
      }
      RenameLiteralPrefix(t[1..], rest, m);
      calc {
        RenamePlaceholders(t + rest, m);
        { assert (t + rest)[0] == t[0] && (t + rest)[1..] == t[1..] + rest; }
        [t[0]] + RenamePlaceholders(t[1..] + rest, m);
        [t[0]] + t[1..] + RenamePlaceholders(rest, m);
        { assert t == [t[0]] + t[1..]; }
        t + RenamePlaceholders(rest, m);
      }
    } else {
      assert t + rest == rest;
    }
  }

  /** A brace pair is renamed as a whole and the scan resumes after it. */
  lemma RenameBraced(inner: string, rest: string, m: Entries)
    requires '}' !in inner
    ensures RenamePlaceholders("{" + inner + "}" + rest, m) ==
            "{" + RenameHole(inner, m) + "}" + RenamePlaceholders(rest, m)
  {
    var uri := "{" + inner + "}" + rest;
    assert uri[1..] == inner + "}" + rest;
    assert uri[1..][|inner|] == '}';
    var j := IndexOf(uri[1..], '}');
    assert j == |inner|;
    assert uri[1..j + 1] == inner;
    assert uri[j + 2..] == rest;
  }

  /** The renamed placeholder text: the alias, with the optional mark kept. */
  lemma RenameHoleOf(n: string, opt: bool, m: Entries)
    requires '?' !in n
    ensures RenameHole(n + (if opt then "?" else ""), m) == Lookup(m, n).GetOr(n) + (if opt then "?" else "")
  {
    var inner := n + (if opt then "?" else "");
    if opt {
      assert inner[|inner| - 1] == '?';
      assert inner[..|inner| - 1] == n;
    } else {
      assert inner == n;
      if |n| > 0 {
        assert n[|n| - 1] in n;
      }
    }
  }

  /** One placeholder is renamed to its alias, with its optional mark. */
  lemma RenameOnePlaceholder(n: string, opt: bool, rest: string, m: Entries)
    requires '}' !in n && '?' !in n
    ensures RenamePlaceholders(RenderSegment(Placeholder(n, opt)) + rest, m) ==
            RenderSegment(Placeholder(Lookup(m, n).GetOr(n), opt)) + RenamePlaceholders(rest, m)
  {
    var mark := if opt then "?" else "";
    var inner := n + mark;
    assert RenderSegment(Placeholder(n, opt)) == "{" + inner + "}";
    assert '}' !in inner;
    RenameBraced(inner, rest, m);
    RenameHoleOf(n, opt, m);
    var alias := Lookup(m, n).GetOr(n);
    assert RenderSegment(Placeholder(alias, opt)) == "{" + (alias + mark) + "}";
  }

  /** The corrected renaming does exactly what the template-level renaming
      says: placeholders take their alias and every literal character is
      kept. */
  lemma {:induction false} RenameOnlyPlaceholders(segs: seq<Segment>, m: Entries)
    requires WellFormed(segs)
    ensures RenamePlaceholders(Render(segs), m) == Render(RenameSegments(segs, m))
  {
    if |segs| > 0 {
      assert WellFormed(segs[1..]) by {
        forall k | 0 <= k < |segs[1..]| ensures match segs[1..][k]
          case Literal(t) => '{' !in t
          case Placeholder(n, _) => '}' !in n && '?' !in n
        {
          assert segs[1..][k] == segs[k + 1];
        }
      }
      RenameOnlyPlaceholders(segs[1..], m);
      assert RenameSegments(segs, m)[1..] == RenameSegments(segs[1..], m);
      match segs[0]
      case Literal(t) =>
        RenameLiteralPrefix(t, Render(segs[1..]), m);
      case Placeholder(n, opt) =>
        RenameOnePlaceholder(n, opt, Render(segs[1..]), m);
    }
  }

  /** With the identity alias map the corrected renaming changes nothing. */
  lemma {:induction false} RenameIdentity(uri: string, m: Entries)
    requires forall e :: e in m ==> e.0 == e.1
    ensures RenamePlaceholders(uri, m) == uri
    decreases |uri|
  {
    if |uri| > 0 && uri[0] == '{' && '}' in uri[1..] {
      var j := IndexOf(uri[1..], '}');
      var inner, rest := uri[1..j + 1], uri[j + 2..];
      assert RenameHole(inner, m) == inner by {
        RenameHoleIdentity(inner, m);
      }
      assert RenamePlaceholders(rest, m) == rest by {
        RenameIdentity(rest, m);
      }
      assert "{" + inner + "}" + rest == uri by {
        BraceSplit(uri);
      }
    } else if |uri| > 0 {
      assert RenamePlaceholders(uri[1..], m) == uri[1..] by {
        RenameIdentity(uri[1..], m);
      }
      assert uri == [uri[0]] + uri[1..];
    }
  }

  /** A URI opening with a closed brace pair is the pair and what follows. */
  lemma BraceSplit(uri: string)
    requires |uri| > 0 && uri[0] == '{' && '}' in uri[1..]
    ensures var j := IndexOf(uri[1..], '}');
            '}' !in uri[1..j + 1] && uri == "{" + uri[1..j + 1] + "}" + uri[j + 2..]
  {
    var j := IndexOf(uri[1..], '}');
    assert uri[1..j + 1] == uri[1..][..j];
    assert uri[j + 1] == '}';
    assert uri == uri[..1] + uri[1..j + 1] + [uri[j + 1]] + uri[j + 2..];
  }

  lemma RenameHoleIdentity(inner: string, m: Entries)
    requires forall e :: e in m ==> e.0 == e.1
    ensures RenameHole(inner, m) == inner
  {
    var optional := |inner| > 0 && inner[|inner| - 1] == '?';
    var name := if optional then inner[..|inner| - 1] else inner;
    IdentityLookup(m, name);
    if optional {
      assert inner == name + "?";
    }
  }

  /** In an identity map every key reads itself. */
  lemma {:induction false} IdentityLookup(m: Entries, k: string)
    requires forall e :: e in m ==> e.0 == e.1
    ensures Lookup(m, k).GetOr(k) == k
  {
    if |m| > 0 && m[0].0 != k {
      IdentityLookup(m[1..], k);
    }
  }

  /** A lone placeholder takes its alias. */
  lemma PlaceholderAlone(n: string, alias: string)
    requires '}' !in n && '?' !in n
    ensures RenamePlaceholders("{" + n + "}", [(n, alias)]) == "{" + alias + "}"
  {
    var m := [(n, alias)];
    assert RenameHole(n, m) == alias by {
      RenameHoleOf(n, false, m);
      assert n + "" == n;
    }
    assert "{" + n + "}" == "{" + n + "}" + "";
    RenameBraced(n, "", m);
  }

  /** A placeholder after literal text: only the placeholder changes. */
  lemma PlaceholderAfterLiteral(lit: string, n: string, alias: string)
    requires '{' !in lit && '}' !in n && '?' !in n
    ensures RenamePlaceholders(lit + "{" + n + "}", [(n, alias)]) == lit + "{" + alias + "}"
  {
    var tail := "{" + n + "}";
    assert lit + "{" + n + "}" == lit + tail;
    assert lit + "{" + alias + "}" == lit + ("{" + alias + "}");
    RenameLiteralPrefix(lit, tail, [(n, alias)]);
    PlaceholderAlone(n, alias);
  }

  /** The same route, renamed as intended: `posts/{post}` becomes
      `posts/{id}`. */
  lemma PlaceholderRenamed()
    ensures RenamePlaceholders("posts/{post}", [("post", "id")]) == "posts/{id}"
  {
    assert "posts/{post}" == "posts/" + "{" + "post" + "}";
    assert "posts/{id}" == "posts/" + "{" + "id" + "}";
    PlaceholderAfterLiteral("posts/", "post", "id");
  }

  /** Where the name occurs only as the placeholder, `str_replace` renames
      exactly that placeholder, as the corrected renaming does. */
  lemma ReplaceAgreesWithRename(lit: string, n: string, alias: string)
    requires |n| > 0 && !Contains(lit, n)
    requires '{' !in lit && '{' !in n && '}' !in n && '?' !in n
    ensures ReplaceEach(lit + "{" + n + "}", [(n, alias)]) == lit + "{" + alias + "}"
    ensures ReplaceEach(lit + "{" + n + "}", [(n, alias)]) ==
            RenamePlaceholders(lit + "{" + n + "}", [(n, alias)])
  {
    var z := "{" + n + "}";
    var m := [(n, alias)];
    assert lit + "{" + n + "}" == lit + z;
    assert lit + "{" + alias + "}" == lit + ("{" + alias + "}");
    assert ReplaceAll(lit + z, n, alias) == lit + ("{" + alias + "}") by {
      assert z[0] == '{';
      assert forall j :: 0 < j < |n| ==> n[j] != z[0];
      NoStraddle(lit, z, n);
      ReplaceAllSkipsPrefix(lit, z, n, alias);
      ReplaceAllPlaceholder(n, alias);
    }
    ReplaceEachSingle(lit + z, n, alias);
    PlaceholderAfterLiteral(lit, n, alias);
  }

  /** `str_replace` on a lone placeholder renames its name. */
  lemma ReplaceAllPlaceholder(n: string, alias: string)
    requires |n| > 0 && '{' !in n && '}' !in n
    ensures ReplaceAll("{" + n + "}", n, alias) == "{" + alias + "}"
  {
    var z := "{" + n + "}";
    assert z[..|n|][0] == '{' != n[0];
    assert z[1..] == n + "}";
    assert (n + "}")[..|n|] == n;
    assert (n + "}")[|n|..] == "}";
    assert ReplaceAll("}", n, alias) == "}" by {
      if |n| == 1 {
        assert "}"[..1] != n;
        assert "}"[1..] == "";
      }
    }
  }

  // ---------------------------------------------------------------------
  // Dropping `api/`

  /** `str_replace('api/', '', $path)` */
  function StripApi(path: string): string {
    ReplaceAll(path, "api/", "")
  }

  /** An `api/` anywhere in the path is removed, not only a leading one:
      the text before it is kept as it is (`v1/api/users` is filed as
      `v1/users`). */
  lemma StripApiInside(a: string, b: string)
    requires !Contains(a, "api/")
    ensures StripApi(a + "api/" + b) == a + StripApi(b)
    ensures !Contains(b, "api/") ==> StripApi(a + "api/" + b) == a + b
  {
    var z := "api/" + b;
    assert a + "api/" + b == a + z;
    assert ReplaceAll(a + z, "api/", "") == a + ReplaceAll(z, "api/", "") by {
      assert z[0] == 'a';
      assert forall j :: 0 < j < |"api/"| ==> "api/"[j] != z[0];
      NoStraddle(a, z, "api/");
      ReplaceAllSkipsPrefix(a, z, "api/", "");
    }
    StripApiPrefix(b);
  }

  /** A path without `api/` is kept; a leading `api/` is removed. */
  lemma StripApiPrefix(rest: string)
    ensures StripApi("api/" + rest) == StripApi(rest)
    ensures !Contains(rest, "api/") ==> StripApi(rest) == rest
  {
    assert ("api/" + rest)[..4] == "api/";
    assert ("api/" + rest)[4..] == rest;
    if !Contains(rest, "api/") {
      ReplaceAllAbsent(rest, "api/", "");
    }
  }
}
