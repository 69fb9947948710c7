/**
 * HTML escaping of a document body: the `escapeHtml` helper of build/utils.js.
 *
 * The source is one `String.prototype.replace` with the global regular
 * expression `/[&<>"']/g` and a callback that looks the matched character up
 * in a five-entry table.  A global replace with a one-character pattern
 * visits the characters left to right and replaces each match on its own, so
 * it is modelled as a pointwise map over the string.
 */
module HtmlEscape {

  /** The characters matched by the regular-expression class `[&<>"']`. */
  predicate IsSpecial(c: char) {
    c == '&' || c == '<' || c == '>' || c == '"' || c == '\''
  }

  /** A string in which the class matches nowhere. */
  predicate Plain(s: string) {
    forall i | 0 <= i < |s| :: !IsSpecial(s[i])
  }

  /** The lookup table that the replace callback indexes with the matched character. */
  const Entities: map<char, string> :=
    map['&' := "&amp;", '<' := "&lt;", '>' := "&gt;", '"' := "&quot;", '\'' := "&#039;"]

  /** True when `s` begins with one of the five character references of the table. */
  predicate StartsEntity(s: string) {
    "&amp;" <= s || "&lt;" <= s || "&gt;" <= s || "&quot;" <= s || "&#039;" <= s
  }

  /**
   * The shape of every escaped text: none of `< > " '` occurs, and every `&`
   * begins a character reference.
   */
  predicate IsEscaped(s: string) {
    forall i | 0 <= i < |s| :: IsSpecial(s[i]) ==> s[i] == '&' && StartsEntity(s[i..])
  }

  /**
   * The callback's result for one character: the table entry for a matched
   * character, the character itself for any other.
   */
  function EscapeChar(c: char): (r: string)
    ensures 1 <= |r| <= 6
    ensures r[0] == '&' <==> IsSpecial(c)
    ensures IsSpecial(c) ==> StartsEntity(r) && Plain(r[1..])
    ensures !IsSpecial(c) ==> r == [c]
  {
    if IsSpecial(c) then Entities[c] else [c]
  }

  /** `escapeHtml(text)`: every character replaced by `EscapeChar`, in order. */
  function EscapeHtml(text: string): (r: string)
    ensures |text| <= |r| <= 6 * |text|
    ensures forall i | 0 <= i < |r| :: IsSpecial(r[i]) ==> r[i] == '&'
  {
    if text == [] then [] else EscapeChar(text[0]) + EscapeHtml(text[1..])
  }

  /**
   * Entity decoding of the five references, scanning left to right; any other
   * text, including an `&` that begins no reference, is copied unchanged.
   */
  function Unescape(s: string): (r: string)
    ensures |r| <= |s|
    decreases |s|
  {
    if s == [] then []
    else if "&amp;" <= s then "&" + Unescape(s[5..])
    else if "&lt;" <= s then "<" + Unescape(s[4..])
    else if "&gt;" <= s then ">" + Unescape(s[4..])
    else if "&quot;" <= s then "\"" + Unescape(s[6..])
    else if "&#039;" <= s then "'" + Unescape(s[6..])
    else [s[0]] + Unescape(s[1..])
  }

  /**
   * Every character the regular expression matches has an entry in the table,
   * so the callback never yields `undefined`, and the table has no other key.
   */
  lemma TableCoversClass(c: char)
    ensures IsSpecial(c) <==> c in Entities
  {
  }

  /**
   * The table is injective and prefix-free: no reference is a prefix of
   * another, and the decoder maps each one back to its character.
   */
  lemma EntitiesPrefixFree(c: char, d: char)
    requires IsSpecial(c) && IsSpecial(d)
    ensures Entities[c] <= Entities[d] <==> c == d
    ensures Entities[c] == Entities[d] <==> c == d
    ensures Unescape(Entities[c]) == [c]
  {
    UnescapeCons(c, "");
    assert EscapeChar(c) + "" == Entities[c];
    if Entities[c] <= Entities[d] {
      assert Entities[c][1] == Entities[d][1];
      assert Entities[c][2] == Entities[d][2];
    }
  }

  /** Escaping one character and then the rest is escaping the whole. */
  lemma EscapeCons(c: char, t: string)
    ensures EscapeHtml([c] + t) == EscapeChar(c) + EscapeHtml(t)
  {
    assert ([c] + t)[1..] == t;
  }

  /** A global replace works per match, so escaping distributes over concatenation. */
  lemma {:induction false} EscapeAppend(a: string, b: string)
    ensures EscapeHtml(a + b) == EscapeHtml(a) + EscapeHtml(b)
    decreases |a|
  {
    if a == [] {
      assert a + b == b;
    } else {
      EscapeAppend(a[1..], b);
      EscapeConsAppend(a[0], a[1..], b);
      assert [a[0]] + a[1..] == a;
    }
  }

  /** One step of `EscapeAppend`: a character put in front of both sides. */
  lemma EscapeConsAppend(c: char, rest: string, b: string)
    requires EscapeHtml(rest + b) == EscapeHtml(rest) + EscapeHtml(b)
    ensures EscapeHtml([c] + rest + b) == EscapeHtml([c] + rest) + EscapeHtml(b)
  {
    var e := EscapeChar(c);
    AppendAssoc([c], rest, b);
    EscapeCons(c, rest + b);
    EscapeCons(c, rest);
    AppendAssoc(e, EscapeHtml(rest), EscapeHtml(b));
  }

  /** Concatenation is associative. */
  lemma AppendAssoc(x: string, y: string, z: string)
    ensures x + (y + z) == x + y + z
  {
  }

  /**
   * Each character is replaced where it stands: around any one character,
   * the output is the escaped text before it, its replacement, then the
   * escaped text after it.
   */
  lemma EscapeAround(before: string, c: char, after: string)
    ensures EscapeHtml(before + ([c] + after)) == EscapeHtml(before) + EscapeChar(c) + EscapeHtml(after)
  {
    EscapeAppend(before, [c] + after);
    EscapeCons(c, after);
    AppendAssoc(EscapeHtml(before), EscapeChar(c), EscapeHtml(after));
  }

  /** A reference at the start of `e` is still at the start of anything `e` begins. */
  lemma StartsEntityAppend(e: string, t: string)
    requires StartsEntity(e)
    ensures StartsEntity(e + t)
  {
    assert e <= e + t;
  }

  /** The output of `escapeHtml` contains no `< > " '`, and each of its `&` begins a reference. */
  lemma {:induction false} EscapeIsEscaped(text: string)
    ensures IsEscaped(EscapeHtml(text))
    decreases |text|
  {
    if text != [] {
      var e, rest := EscapeChar(text[0]), EscapeHtml(text[1..]);
      var r := e + rest;
      assert r == EscapeHtml(text);
      EscapeIsEscaped(text[1..]);
      forall i | 0 <= i < |r| && IsSpecial(r[i])
        ensures r[i] == '&' && StartsEntity(r[i..])
      {
        if i < |e| {
          assert r[i] == e[i];
          assert i == 0;
          StartsEntityAppend(e, rest);
        } else {
          assert r[i] == rest[i - |e|];
          assert r[i..] == rest[i - |e|..];
        }
      }
    }
  }

  /** A suffix of an escaped text is escaped. */
  lemma EscapedSuffix(s: string, k: nat)
    requires IsEscaped(s) && k <= |s|
    ensures IsEscaped(s[k..])
  {
    forall i | 0 <= i < |s[k..]| && IsSpecial(s[k..][i])
      ensures s[k..][i] == '&' && StartsEntity(s[k..][i..])
    {
      assert s[k..][i] == s[k + i];
      assert s[k..][i..] == s[k + i..];
    }
  }

  /** Decoding the escaped form of one character yields that character, whatever follows. */
  lemma UnescapeCons(c: char, t: string)
    ensures Unescape(EscapeChar(c) + t) == [c] + Unescape(t)
  {
    if IsSpecial(c) {
      UnescapeReference(c, t);
    } else {
      var s := EscapeChar(c) + t;
      assert s[0] == c && s[1..] == t;
    }
  }

  /** Decoding a character reference yields its character, whatever follows. */
  lemma UnescapeReference(c: char, t: string)
    requires IsSpecial(c)
    ensures Unescape(Entities[c] + t) == [c] + Unescape(t)
  {
    var s := Entities[c] + t;
    if c == '&' {
      assert "&amp;" <= s && s[5..] == t;
    } else if c == '<' {
      assert s[1] == 'l' && !("&amp;" <= s);
      assert "&lt;" <= s && s[4..] == t;
    } else if c == '>' {
      assert s[1] == 'g' && !("&amp;" <= s) && !("&lt;" <= s);
      assert "&gt;" <= s && s[4..] == t;
    } else if c == '"' {
      assert s[1] == 'q' && !("&amp;" <= s) && !("&lt;" <= s) && !("&gt;" <= s);
      assert "&quot;" <= s && s[6..] == t;
    } else {
      assert s[1] == '#' && !("&amp;" <= s) && !("&lt;" <= s) && !("&gt;" <= s) && !("&quot;" <= s);
      assert "&#039;" <= s && s[6..] == t;
    }
  }

  /** Decoding the five references recovers the original text exactly. */
  lemma {:induction false} UnescapeEscape(text: string)
    ensures Unescape(EscapeHtml(text)) == text
    decreases |text|
  {
    if text != [] {
      UnescapeCons(text[0], EscapeHtml(text[1..]));
      UnescapeEscape(text[1..]);
    }
  }

  /**
   * Decoding consumes an escaped text from the front one escaped character
   * at a time: the first `k` characters are the replacement of `c`.
   */
  lemma UnescapeHead(s: string) returns (k: nat, c: char)
    requires IsEscaped(s) && s != []
    ensures 1 <= k <= |s|
    ensures s[..k] == EscapeChar(c)
    ensures Unescape(s) == [c] + Unescape(s[k..])
  {
    if "&amp;" <= s {
      k, c := 5, '&';
    } else if "&lt;" <= s {
      k, c := 4, '<';
    } else if "&gt;" <= s {
      k, c := 4, '>';
    } else if "&quot;" <= s {
      k, c := 6, '"';
    } else if "&#039;" <= s {
      k, c := 6, '\'';
    } else {
      assert !IsSpecial(s[0]);
      k, c := 1, s[0];
    }
  }

  /** Conversely, every escaped text is the escaped form of its decoding. */
  lemma {:induction false} EscapeUnescape(s: string)
    requires IsEscaped(s)
    ensures EscapeHtml(Unescape(s)) == s
    decreases |s|
  {
    if s != [] {
      var k, c := UnescapeHead(s);
      EscapedSuffix(s, k);
      EscapeUnescape(s[k..]);
      EscapeCons(c, Unescape(s[k..]));
      assert s == s[..k] + s[k..];
    }
  }

  /** The texts `escapeHtml` can produce are exactly the escaped ones. */
  lemma EscapedIsRange(s: string)
    ensures IsEscaped(s) <==> exists text :: EscapeHtml(text) == s
  {
    if IsEscaped(s) {
      EscapeUnescape(s);
    }
    if exists text :: EscapeHtml(text) == s {
      var text :| EscapeHtml(text) == s;
      EscapeIsEscaped(text);
    }
  }

  /** Distinct bodies never escape to the same text. */
  lemma EscapeInjective(a: string, b: string)
    ensures EscapeHtml(a) == EscapeHtml(b) <==> a == b
  {
    UnescapeEscape(a);
    UnescapeEscape(b);
  }

  /**
   * Output length is input length plus 4 per `&`, 3 per `<` or `>`, and 5 per
   * `"` or `'`.
   */
  lemma {:induction false} EscapeLength(text: string)
    ensures |EscapeHtml(text)| == |text| + 4 * multiset(text)['&']
      + 3 * (multiset(text)['<'] + multiset(text)['>'])
      + 5 * (multiset(text)['"'] + multiset(text)['\''])
    decreases |text|
  {
    if text != [] {
      assert text == [text[0]] + text[1..];
      assert multiset(text) == multiset{text[0]} + multiset(text[1..]);
      EscapeLength(text[1..]);
    }
  }

  /** Text the class matches nowhere is returned unchanged, and only such text is. */
  lemma {:induction false} EscapeFixesPlain(text: string)
    ensures EscapeHtml(text) == text <==> Plain(text)
    decreases |text|
  {
    if text != [] {
      EscapeFixesPlain(text[1..]);
      if Plain(text) {
        assert Plain(text[1..]) by {
          forall i | 0 <= i < |text[1..]| ensures !IsSpecial(text[1..][i]) {
            assert text[1..][i] == text[i + 1];
          }
        }
        assert !IsSpecial(text[0]);
      }
      if EscapeHtml(text) == text {
        EscapeLength(text);
        forall i | 0 <= i < |text| ensures !IsSpecial(text[i]) {
          assert text[i] in multiset(text);
        }
      }
    }
  }

  /** Decoding leaves text without any of the five characters unchanged. */
  lemma {:induction false} UnescapePlain(s: string)
    requires Plain(s)
    ensures Unescape(s) == s
    decreases |s|
  {
    if s != [] {
      assert !IsSpecial(s[0]);
      assert Plain(s[1..]) by {
        forall i | 0 <= i < |s[1..]| ensures !IsSpecial(s[1..][i]) {
          assert s[1..][i] == s[i + 1];
        }
      }
      UnescapePlain(s[1..]);
    }
  }

  /**
   * Escaping is not idempotent: escaping twice gives the same result as
   * escaping once exactly when the class matches nowhere in the text.
   */
  lemma EscapeTwiceIff(text: string)
    ensures EscapeHtml(EscapeHtml(text)) == EscapeHtml(text) <==> Plain(text)
  {
    var e := EscapeHtml(text);
    if Plain(text) {
      EscapeFixesPlain(text);
    }
    if EscapeHtml(e) == e {
      EscapeFixesPlain(e);
      UnescapePlain(e);
      UnescapeEscape(text);
      EscapeFixesPlain(text);
    }
  }

  /** The concrete witness: `&` escapes to `&amp;`, which escapes again to `&amp;amp;`. */
  lemma AmpersandEscapesTwice()
    ensures EscapeHtml("&") == "&amp;"
    ensures EscapeHtml("&amp;") == "&amp;amp;"
  {
    EscapeCons('&', "");
    assert "&amp;" == ['&'] + "amp;";
    EscapeFixesPlain("amp;");
    EscapeCons('&', "amp;");
  }
}
