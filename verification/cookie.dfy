/** Cookies as strings: `getCookie(name)` reads `document.cookie` with the
    regular expression `(?:^|; )` + escaped name + `=([^;]*)`, and
    `setCookie` writes one `name=value; attr=...` line. */
module Cookie {
  import opened Js
  import opened Text

  // ---------------------------------------------------------------------
  // Escaping the name

  /** The characters `name.replace(/([\.$?*|{}\(\)\[\]\\\/\+^])/g, '\\$1')`
      puts a backslash in front of. */
  const Escaped: set<char> :=
    {'.', '$', '?', '*', '|', '{', '}', '(', ')', '[', ']', '\\', '/', '+', '^'}

  /** The syntax characters of an ECMAScript regular expression (section
      22.2.1 of ECMA-262): outside an escape, each has a meaning of its
      own rather than standing for itself. */
  const SyntaxChars: set<char> :=
    {'^', '$', '\\', '.', '*', '+', '?', '(', ')', '[', ']', '{', '}', '|'}

  /** The escaped name as it is spliced into the pattern. */
  function EscapeName(name: string): string
    decreases |name|
  {
    if name == [] then ""
    else (if name[0] in Escaped then ['\\', name[0]] else [name[0]]) + EscapeName(name[1..])
  }

  /** Reads a pattern made of literal atoms only: a character that is not a
      syntax character stands for itself, and a backslash followed by a
      syntax character or '/' stands for that character. Anything else
      (a bare syntax character, a dangling backslash, any other escape) is
      not a literal pattern. */
  function LiteralOf(pattern: string): Option<string>
    decreases |pattern|
  {
    if pattern == [] then Some("")
    else if pattern[0] == '\\' then
      if |pattern| >= 2 && (pattern[1] in SyntaxChars || pattern[1] == '/') then
        match LiteralOf(pattern[2..])
        case Some(rest) => Some([pattern[1]] + rest)
        case None => None
      else None
    else if pattern[0] in SyntaxChars then None
    else
      match LiteralOf(pattern[1..])
      case Some(rest) => Some([pattern[0]] + rest)
      case None => None
  }

  /** The escaped name is a literal pattern for exactly the name: every
      syntax character is escaped, so the name is matched character for
      character, whatever it contains. */
  lemma {:induction false} EscapedNameIsLiteral(name: string)
    ensures LiteralOf(EscapeName(name)) == Some(name)
    decreases |name|
  {
    if name != [] {
      EscapedNameIsLiteral(name[1..]);
      var head := if name[0] in Escaped then ['\\', name[0]] else [name[0]];
      var p := EscapeName(name);
      assert p == head + EscapeName(name[1..]);
      if name[0] in Escaped {
        assert p[2..] == EscapeName(name[1..]);
      } else {
        assert p[1..] == EscapeName(name[1..]);
      }
      assert [name[0]] + name[1..] == name;
    }
  }

  // ---------------------------------------------------------------------
  // Reading `document.cookie`

  /** A cookie named `name` begins at `q` in the cookie string `s`: q is the
      start of `s` or follows "; ", and `s` continues with name + "=".
      These are the places where `(?:^|; )name=` can match; ordering the
      matches by where the name begins is ordering them by where the
      whole match begins. */
  predicate NameAt(s: string, name: string, q: nat)
  {
    && q + |name| < |s|
    && s[q..q + |name|] == name
    && s[q + |name|] == '='
    && (q == 0 || (q >= 2 && s[q - 2] == ';' && s[q - 1] == ' '))
  }

  /** The `([^;]*)` group of the match whose name begins at `q`. */
  function ValueAt(s: string, name: string, q: nat): string
    requires NameAt(s, name, q)
  {
    var v := q + |name| + 1;
    s[v..RunEnd(s, v, {';'})]
  }

  /** `q` is the leftmost place at or after `from` where the name begins. */
  ghost predicate FirstNameAt(s: string, name: string, from: nat, q: nat)
  {
    from <= q && NameAt(s, name, q) && forall j :: from <= j < q ==> !NameAt(s, name, j)
  }

  /** The leftmost match at or after `q`, as `String.prototype.match`
      finds it: the places are tried from left to right. */
  function FindFrom(s: string, name: string, q: nat): Option<string>
    requires q <= |s|
    decreases |s| - q
  {
    if NameAt(s, name, q) then Some(ValueAt(s, name, q))
    else if q == |s| then None
    else FindFrom(s, name, q + 1)
  }

  /** The search finds nothing exactly when the name begins nowhere, and
      otherwise the value at the leftmost place where it begins. */
  lemma {:induction false} FindFromIsLeftmost(s: string, name: string, q: nat)
    requires q <= |s|
    ensures FindFrom(s, name, q).None? <==> forall k :: q <= k <= |s| ==> !NameAt(s, name, k)
    ensures FindFrom(s, name, q).Some? ==>
      exists k :: FirstNameAt(s, name, q, k) && FindFrom(s, name, q).value == ValueAt(s, name, k)
    decreases |s| - q
  {
    if NameAt(s, name, q) {
      assert FirstNameAt(s, name, q, q);
    } else if q < |s| {
      FindFromIsLeftmost(s, name, q + 1);
      if FindFrom(s, name, q + 1).Some? {
        var k :| FirstNameAt(s, name, q + 1, k) && FindFrom(s, name, q + 1).value == ValueAt(s, name, k);
        assert FirstNameAt(s, name, q, k);
      }
    }
  }

  /** `getCookie(name)`: the decoded value of the leftmost cookie with that
      name, or `undefined`. */
  function GetCookie(cookie: string, name: string, decode: string -> string): (r: Option<string>)
    ensures r.None? <==> forall k :: 0 <= k <= |cookie| ==> !NameAt(cookie, name, k)
    ensures r.Some? ==> exists k :: FirstNameAt(cookie, name, 0, k) && r.value == decode(ValueAt(cookie, name, k))
  {
    FindFromIsLeftmost(cookie, name, 0);
    match FindFrom(cookie, name, 0)
    case Some(v) => Some(decode(v))
    case None => None
  }

  // ---------------------------------------------------------------------
  // A rendered cookie jar

  /** `document.cookie` for a jar: `name=value` entries joined by "; ". */
  function Render(jar: seq<(string, string)>): string
    decreases |jar|
  {
    if jar == [] then ""
    else if |jar| == 1 then jar[0].0 + "=" + jar[0].1
    else jar[0].0 + "=" + jar[0].1 + "; " + Render(jar[1..])
  }

  /** The value of the first entry of the jar with the given name. */
  function FirstValue(jar: seq<(string, string)>, name: string): Option<string>
    decreases |jar|
  {
    if jar == [] then None
    else if jar[0].0 == name then Some(jar[0].1)
    else FirstValue(jar[1..], name)
  }

  /** The first value is the value of some entry with that name, and
      there is none exactly when no entry has that name. */
  lemma {:induction false} FirstValueFound(jar: seq<(string, string)>, name: string)
    ensures FirstValue(jar, name).None? <==> forall i :: 0 <= i < |jar| ==> jar[i].0 != name
    ensures FirstValue(jar, name).Some? ==>
      exists i :: 0 <= i < |jar| && jar[i].0 == name && jar[i].1 == FirstValue(jar, name).value
    decreases |jar|
  {
    if jar != [] && jar[0].0 != name {
      FirstValueFound(jar[1..], name);
      forall i | 1 <= i < |jar|
        ensures jar[i] == jar[1..][i - 1]
      {
      }
      if FirstValue(jar, name).Some? {
        var i :| 0 <= i < |jar[1..]| && jar[1..][i].0 == name && jar[1..][i].1 == FirstValue(jar, name).value;
        assert jar[i + 1] == jar[1..][i];
      }
    }
  }

  /** An entry as a browser stores it: a name without ';' or '=' and an
      (encoded) value without ';'. */
  predicate Storable(entry: (string, string))
  {
    Free(entry.0, {';', '='}) && Free(entry.1, {';'})
  }

  /** Places where no name begins are skipped one by one. */
  lemma {:induction false} SkipNoName(s: string, name: string, a: nat, b: nat)
    requires a <= b <= |s|
    requires forall k :: a <= k < b ==> !NameAt(s, name, k)
    ensures FindFrom(s, name, a) == FindFrom(s, name, b)
    decreases b - a
  {
    if a < b {
      SkipNoName(s, name, a + 1, b);
    }
  }

  lemma NameAtShift(pre: string, t: string, name: string, q: nat)
    requires |pre| >= 2 && pre[|pre| - 2] == ';' && pre[|pre| - 1] == ' '
    requires q <= |t|
    ensures NameAt(pre + t, name, |pre| + q) <==> NameAt(t, name, q)
  {
    var s := pre + t;
    var q' := |pre| + q;
    if q' + |name| < |s| {
      var a, b := s[q'..q' + |name|], t[q..q + |name|];
      forall i | 0 <= i < |a|
        ensures a[i] == b[i]
      {
        assert a[i] == s[q' + i];
      }
      assert a == b;
      assert s[q' + |name|] == t[q + |name|];
    }
    if q >= 2 {
      assert s[q' - 2] == t[q - 2] && s[q' - 1] == t[q - 1];
    } else if q == 1 {
      assert s[q' - 2] == pre[|pre| - 1] == ' ';
    }
  }

  lemma ValueAtShift(pre: string, t: string, name: string, q: nat)
    requires |pre| >= 2 && pre[|pre| - 2] == ';' && pre[|pre| - 1] == ' '
    requires q <= |t|
    requires NameAt(t, name, q) && NameAt(pre + t, name, |pre| + q)
    ensures ValueAt(pre + t, name, |pre| + q) == ValueAt(t, name, q)
  {
    var s := pre + t;
    var v := q + |name| + 1;
    var w := RunEnd(t, v, {';'});
    forall k | |pre| + v <= k < |pre| + w
      ensures s[k] !in {';'}
    {
      assert s[k] == t[k - |pre|];
    }
    if |pre| + w < |s| {
      assert s[|pre| + w] == t[w];
    }
    RunEndUnique(s, |pre| + v, {';'}, |pre| + w);
    assert s[|pre| + v..|pre| + w] == t[v..w];
  }

  /** Behind a prefix that ends in "; ", the search proceeds as in the rest
      of the string. */
  lemma {:induction false} FindFromShift(pre: string, t: string, name: string, q: nat)
    requires |pre| >= 2 && pre[|pre| - 2] == ';' && pre[|pre| - 1] == ' '
    requires q <= |t|
    ensures FindFrom(pre + t, name, |pre| + q) == FindFrom(t, name, q)
    decreases |t| - q
  {
    var s := pre + t;
    NameAtShift(pre, t, name, q);
    if NameAt(t, name, q) {
      ValueAtShift(pre, t, name, q);
      assert FindFrom(s, name, |pre| + q) == Some(ValueAt(s, name, |pre| + q));
      assert FindFrom(t, name, q) == Some(ValueAt(t, name, q));
    } else if q == |t| {
      assert FindFrom(s, name, |pre| + q) == None;
      assert FindFrom(t, name, q) == None;
    } else {
      FindFromShift(pre, t, name, q + 1);
      assert FindFrom(s, name, |pre| + q) == FindFrom(s, name, |pre| + q + 1);
      assert FindFrom(t, name, q) == FindFrom(t, name, q + 1);
    }
  }

  /** In a rendered jar whose first entry is not `name`, no match starts in
      that first entry or at the ';' that ends it. */
  lemma NoNameInFirstEntry(jar: seq<(string, string)>, name: string)
    requires |jar| >= 1 && Storable(jar[0]) && jar[0].0 != name
    requires Free(name, {'='})
    ensures forall k :: 0 <= k <= |jar[0].0| + |jar[0].1| + 2 && k <= |Render(jar)| ==> !NameAt(Render(jar), name, k)
  {
    var s := Render(jar);
    var n, v := jar[0].0, jar[0].1;
    var entry := n + "=" + v;
    assert s[..|entry|] == entry;
    forall k | 0 <= k <= |entry| + 1 && k <= |s|
      ensures !NameAt(s, name, k)
    {
      if k == 0 {
        if |name| < |n| {
          assert s[|name|] == n[|name|] != '=';
        } else if |name| > |n| {
          if |name| < |s| {
            assert s[..|name|][|n|] == '=' != name[|n|];
          }
        } else {
          assert s[..|n|] == n != name;
        }
      } else if k >= 2 {
        assert s[k - 2] == entry[k - 2];
        if k - 2 < |n| {
          assert entry[k - 2] == n[k - 2];
        } else if k - 2 > |n| {
          assert entry[k - 2] == v[k - 2 - |n| - 1];
        }
        assert s[k - 2] != ';';
      }
    }
  }

  /** The first entry carries the name: its value is found. */
  lemma FindInFirstEntry(jar: seq<(string, string)>, name: string)
    requires |jar| >= 1 && Storable(jar[0]) && jar[0].0 == name
    ensures FindFrom(Render(jar), name, 0) == Some(jar[0].1)
  {
    var s := Render(jar);
    var n, v := jar[0].0, jar[0].1;
    var entry := n + "=" + v;
    assert s[..|entry|] == entry;
    assert s[..|n|] == n;
    assert NameAt(s, name, 0);
    forall k | |n| + 1 <= k < |entry|
      ensures s[k] !in {';'}
    {
      assert s[k] == v[k - |n| - 1];
    }
    RunEndUnique(s, |n| + 1, {';'}, |entry|);
    assert s[|n| + 1..|entry|] == v;
  }

  /** Reading a rendered jar finds the first entry with the name. */
  lemma {:induction false} FindInRendered(jar: seq<(string, string)>, name: string)
    requires forall i :: 0 <= i < |jar| ==> Storable(jar[i])
    requires Free(name, {'='})
    ensures FindFrom(Render(jar), name, 0) == FirstValue(jar, name)
    decreases |jar|
  {
    if jar != [] {
      assert Storable(jar[0]);
      if jar[0].0 == name {
        FindInFirstEntry(jar, name);
      } else {
        var s := Render(jar);
        NoNameInFirstEntry(jar, name);
        if |jar| == 1 {
          SkipNoName(s, name, 0, |s|);
        } else {
          var pre := jar[0].0 + "=" + jar[0].1 + "; ";
          assert s == pre + Render(jar[1..]);
          SkipNoName(s, name, 0, |pre|);
          FindFromShift(pre, Render(jar[1..]), name, 0);
          FindInRendered(jar[1..], name);
        }
      }
    }
  }

  /** `getCookie(name)` on the browser's rendering of a jar returns the
      decoded value of the first entry with that name, and `undefined`
      when there is none. */
  lemma GetCookieFromJar(jar: seq<(string, string)>, name: string, decode: string -> string)
    requires forall i :: 0 <= i < |jar| ==> Storable(jar[i])
    requires Free(name, {'='})
    ensures GetCookie(Render(jar), name, decode) ==
      match FirstValue(jar, name)
      case Some(v) => Some(decode(v))
      case None => None
  {
    FindInRendered(jar, name);
  }

  // ---------------------------------------------------------------------
  // Writing one cookie

  /** An option value: `true` is written as a bare flag, any other value
      as `=` followed by its string form. */
  datatype Attribute = Flag | Setting(text: string)

  function AttributeText(attributes: seq<(string, Attribute)>): string
    decreases |attributes|
  {
    if attributes == [] then ""
    else if attributes[0].1.Flag? then "; " + attributes[0].0 + AttributeText(attributes[1..])
    else "; " + attributes[0].0 + "=" + attributes[0].1.text + AttributeText(attributes[1..])
  }

  /** The string `setCookie(name, value, options)` assigns to
      `document.cookie`, once an `expires` option has been turned into its
      date string. */
  function SetCookieString(name: string, value: string, attributes: seq<(string, Attribute)>,
                           encode: string -> string): string
  {
    name + "=" + encode(value) + AttributeText(attributes)
  }

  /** The line `setCookie` writes, read with `getCookie`'s pattern, yields
      the encoded value it wrote, whatever attributes follow. */
  lemma SetCookieReadsBack(name: string, value: string, attributes: seq<(string, Attribute)>,
                           encode: string -> string)
    requires Free(encode(value), {';'})
    ensures FindFrom(SetCookieString(name, value, attributes, encode), name, 0) == Some(encode(value))
  {
    var s := SetCookieString(name, value, attributes, encode);
    var w := encode(value);
    var end := |name| + 1 + |w|;
    assert s[..|name|] == name;
    assert NameAt(s, name, 0);
    forall k | |name| + 1 <= k < end
      ensures s[k] !in {';'}
    {
      assert s[k] == w[k - |name| - 1];
    }
    if attributes != [] {
      assert s[end] == ';';
    }
    RunEndUnique(s, |name| + 1, {';'}, end);
    assert s[|name| + 1..end] == w;
  }
}
