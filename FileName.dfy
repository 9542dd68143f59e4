/** `safeBaseName` of app.js: the download name derived from the user's file
    name. Each step of the source (three regular-expression replacements and
    a `trim`) is a function on strings here, specified by what it leaves
    behind. */
module FileName {

  /** The name used when nothing usable is left. */
  const Fallback: string := "image"

  /** `\w` without the `u` flag: ASCII letters, digits and the underscore. */
  predicate IsWordChar(c: char)
  {
    ('a' <= c <= 'z') || ('A' <= c <= 'Z') || ('0' <= c <= '9') || c == '_'
  }

  /** The Arabic block `\u0600-\u06FF`. */
  predicate IsArabic(c: char)
  {
    '\U{0600}' <= c <= '\U{06FF}'
  }

  /** The characters the character class `[\w\u0600-\u06FF\- ]` keeps. */
  predicate IsKept(c: char)
  {
    IsWordChar(c) || IsArabic(c) || c == '-' || c == ' '
  }

  /** The characters a finished base name consists of. */
  predicate IsSafe(c: char)
  {
    IsWordChar(c) || IsArabic(c) || c == '-'
  }

  /** The white space that `String.prototype.trim` removes and `\s` matches:
      the ECMAScript WhiteSpace and LineTerminator code points. */
  predicate IsJsWhitespace(c: char)
  {
    c == '\t' || c == '\n' || c == '\U{000B}' || c == '\U{000C}' || c == '\r' || c == ' '
    || c == '\U{00A0}' || c == '\U{1680}' || ('\U{2000}' <= c <= '\U{200A}')
    || c == '\U{2028}' || c == '\U{2029}' || c == '\U{202F}' || c == '\U{205F}'
    || c == '\U{3000}' || c == '\U{FEFF}'
  }

  /** A safe character is never white space. */
  lemma SafeIsNotWhitespace(c: char)
    requires IsSafe(c)
    ensures !IsJsWhitespace(c)
  {
  }

  // ---------------------------------------------------------------------
  // Step 1: `.replace(/\.[^/.]+$/, "")`
  // ---------------------------------------------------------------------

  /** A character allowed inside an extension: neither `/` nor `.`. */
  predicate InExtension(c: char)
  {
    c != '/' && c != '.'
  }

  /** The regular expression `\.[^/.]+$` matches starting at index `i`. */
  predicate ExtensionAt(s: string, i: int)
  {
    0 <= i && i + 1 < |s| && s[i] == '.'
    && forall j :: i < j < |s| ==> InExtension(s[j])
  }

  /** The length of the longest suffix of `s` made of extension characters. */
  function TrailingRun(s: string): (n: nat)
    ensures n <= |s|
    ensures forall j :: |s| - n <= j < |s| ==> InExtension(s[j])
    ensures n < |s| ==> !InExtension(s[|s| - n - 1])
  {
    if s == [] || !InExtension(s[|s| - 1]) then 0
    else TrailingRun(s[..|s| - 1]) + 1
  }

  /** The name without its extension: everything before the last `.`, when
      that `.` is followed by at least one character and no `/`. The result
      is a prefix of the name, and when it is shorter a `.` follows it. */
  function StripExtension(s: string): (r: string)
    ensures |r| <= |s| && r == s[..|r|]
    ensures r != s ==> s[|r|] == '.'
  {
    var n := TrailingRun(s);
    if 1 <= n < |s| && s[|s| - n - 1] == '.' then s[..|s| - n - 1] else s
  }

  /** Stripping agrees with the regular expression: the text before the
      match where there is one, the whole name where there is none. */
  lemma StripExtensionMatchesRegex(s: string)
    ensures forall i :: ExtensionAt(s, i) ==> StripExtension(s) == s[..i]
    ensures (forall i :: !ExtensionAt(s, i)) ==> StripExtension(s) == s
  {
    var n := TrailingRun(s);
    forall i | ExtensionAt(s, i)
      ensures StripExtension(s) == s[..i]
    {
      assert !InExtension(s[i]);
      assert |s| - n - 1 == i;
    }
    if 1 <= n < |s| && s[|s| - n - 1] == '.' {
      assert ExtensionAt(s, |s| - n - 1);
    }
  }

  /** At most one position matches, so the replacement is well defined. */
  lemma ExtensionAtUnique(s: string, i: int, j: int)
    requires ExtensionAt(s, i) && ExtensionAt(s, j)
    ensures i == j
  {
  }

  /** A name without any `.` keeps its whole text. */
  lemma StripExtensionWithoutDot(s: string)
    requires forall k :: 0 <= k < |s| ==> s[k] != '.'
    ensures StripExtension(s) == s
  {
    StripExtensionMatchesRegex(s);
  }

  // ---------------------------------------------------------------------
  // Step 2: `.replace(/[^\w\u0600-\u06FF\- ]+/g, "")`
  // ---------------------------------------------------------------------

  /** The name with every character outside the kept class removed. */
  function RemoveUnsafe(s: string): (r: string)
    ensures |r| <= |s|
    ensures forall k :: 0 <= k < |r| ==> IsKept(r[k])
  {
    if s == [] then []
    else if IsKept(s[0]) then [s[0]] + RemoveUnsafe(s[1..])
    else RemoveUnsafe(s[1..])
  }

  /** Removal works character by character: it distributes over concatenation,
      so the kept characters stay in their order. */
  lemma {:induction false} RemoveUnsafeAppend(a: string, b: string)
    ensures RemoveUnsafe(a + b) == RemoveUnsafe(a) + RemoveUnsafe(b)
    decreases |a|
  {
    if a != [] {
      assert (a + b)[0] == a[0];
      assert (a + b)[1..] == a[1..] + b;
      RemoveUnsafeAppend(a[1..], b);
      if IsKept(a[0]) {
        assert [a[0]] + (RemoveUnsafe(a[1..]) + RemoveUnsafe(b))
            == ([a[0]] + RemoveUnsafe(a[1..])) + RemoveUnsafe(b);
      }
    } else {
      assert a + b == b;
    }
  }

  /** Every kept character survives as often as it occurs, and nothing else does. */
  lemma {:induction false} RemoveUnsafeCounts(s: string, c: char)
    ensures multiset(RemoveUnsafe(s))[c] == if IsKept(c) then multiset(s)[c] else 0
    decreases |s|
  {
    if s != [] {
      assert s == [s[0]] + s[1..];
      RemoveUnsafeCounts(s[1..], c);
    }
  }

  /** A name with no kept character is removed entirely. */
  lemma {:induction false} RemoveUnsafeOfUnkept(s: string)
    requires forall k :: 0 <= k < |s| ==> !IsKept(s[k])
    ensures RemoveUnsafe(s) == []
    decreases |s|
  {
    if s != [] {
      RemoveUnsafeOfUnkept(s[1..]);
    }
  }

  /** A name made only of kept characters passes unchanged. */
  lemma {:induction false} RemoveUnsafeIdentity(s: string)
    requires forall k :: 0 <= k < |s| ==> IsKept(s[k])
    ensures RemoveUnsafe(s) == s
    decreases |s|
  {
    if s != [] {
      RemoveUnsafeIdentity(s[1..]);
    }
  }

  // ---------------------------------------------------------------------
  // Step 3: `.trim()`
  // ---------------------------------------------------------------------

  /** The name without its leading white space. */
  function TrimStart(s: string): (r: string)
    ensures |r| <= |s| && r == s[|s| - |r|..]
    ensures forall k :: 0 <= k < |s| - |r| ==> IsJsWhitespace(s[k])
    ensures r != [] ==> !IsJsWhitespace(r[0])
  {
    if s != [] && IsJsWhitespace(s[0]) then TrimStart(s[1..]) else s
  }

  /** The name without its trailing white space. */
  function TrimEnd(s: string): (r: string)
    ensures |r| <= |s| && r == s[..|r|]
    ensures forall k :: |r| <= k < |s| ==> IsJsWhitespace(s[k])
    ensures r != [] ==> !IsJsWhitespace(r[|r| - 1])
  {
    if s != [] && IsJsWhitespace(s[|s| - 1]) then TrimEnd(s[..|s| - 1]) else s
  }

  /** `trim`: white space removed from both ends. The result is no longer
      than the name and neither starts nor ends with white space. */
  function Trim(s: string): (r: string)
    ensures |r| <= |s|
    ensures r != [] ==> !IsJsWhitespace(r[0]) && !IsJsWhitespace(r[|r| - 1])
  {
    TrimEnd(TrimStart(s))
  }

  /** A name whose ends are not blank is left as it is. */
  lemma TrimIdentity(s: string)
    requires s != [] ==> !IsJsWhitespace(s[0]) && !IsJsWhitespace(s[|s| - 1])
    ensures Trim(s) == s
  {
  }

  /** Trimming keeps only characters that were there: a name of kept
      characters stays one. */
  lemma TrimKeepsKept(s: string)
    requires forall k :: 0 <= k < |s| ==> IsKept(s[k])
    ensures forall k :: 0 <= k < |Trim(s)| ==> IsKept(Trim(s)[k])
  {
    var t := TrimStart(s);
    forall k | 0 <= k < |t| ensures IsKept(t[k]) {
      assert t[k] == s[|s| - |t| + k];
    }
    var r := TrimEnd(t);
    forall k | 0 <= k < |r| ensures IsKept(r[k]) {
      assert r[k] == t[k];
    }
  }

  // ---------------------------------------------------------------------
  // Step 4: `.replace(/\s+/g, "_")`
  // ---------------------------------------------------------------------

  /** Every maximal run of white space replaced by one underscore. */
  function UnderscoreWhitespace(s: string): (r: string)
    ensures forall k :: 0 <= k < |r| ==> !IsJsWhitespace(r[k])
    decreases |s|
  {
    if s == [] then []
    else if IsJsWhitespace(s[0]) then
      "_" + UnderscoreWhitespace(TrimStart(s))
    else [s[0]] + UnderscoreWhitespace(s[1..])
  }

  /** A name without white space is left as it is. */
  lemma {:induction false} UnderscoreWhitespaceIdentity(s: string)
    requires forall k :: 0 <= k < |s| ==> !IsJsWhitespace(s[k])
    ensures UnderscoreWhitespace(s) == s
    decreases |s|
  {
    if s != [] {
      UnderscoreWhitespaceIdentity(s[1..]);
    }
  }

  /** Replacing the blanks of a name made of kept characters leaves only safe
      characters: the only blank the kept class allows is the space, and it
      becomes `_`. */
  lemma {:induction false} UnderscoreWhitespaceSafe(s: string)
    requires forall k :: 0 <= k < |s| ==> IsKept(s[k])
    ensures forall k :: 0 <= k < |UnderscoreWhitespace(s)| ==> IsSafe(UnderscoreWhitespace(s)[k])
    decreases |s|
  {
    if s != [] {
      if IsJsWhitespace(s[0]) {
        var rest := TrimStart(s);
        assert forall k :: 0 <= k < |rest| ==> rest[k] == s[|s| - |rest| + k];
        UnderscoreWhitespaceSafe(rest);
      } else {
        UnderscoreWhitespaceSafe(s[1..]);
      }
    }
  }

  /** A run of blanks between a blank-free prefix and a part that does not
      start with a blank becomes exactly one underscore. */
  lemma {:induction false} UnderscoreWhitespaceRun(a: string, w: string, b: string)
    requires forall k :: 0 <= k < |a| ==> !IsJsWhitespace(a[k])
    requires w != [] && forall k :: 0 <= k < |w| ==> IsJsWhitespace(w[k])
    requires b != [] ==> !IsJsWhitespace(b[0])
    ensures UnderscoreWhitespace(a + w + b) == a + "_" + UnderscoreWhitespace(b)
    decreases |a|
  {
    if a == [] {
      assert a + w + b == w + b;
      TrimStartOfRun(w, b);
    } else {
      var s := a + w + b;
      assert UnderscoreWhitespace(s) == [a[0]] + UnderscoreWhitespace(a[1..] + w + b) by {
        assert s[0] == a[0];
        assert s[1..] == a[1..] + w + b;
      }
      UnderscoreWhitespaceRun(a[1..], w, b);
      assert [a[0]] + (a[1..] + "_" + UnderscoreWhitespace(b)) == a + "_" + UnderscoreWhitespace(b);
    }
  }

  /** Leading blanks in front of a part that does not start with a blank are
      exactly what trimming the start removes. */
  lemma {:induction false} TrimStartOfRun(w: string, b: string)
    requires forall k :: 0 <= k < |w| ==> IsJsWhitespace(w[k])
    requires b != [] ==> !IsJsWhitespace(b[0])
    ensures TrimStart(w + b) == b
    decreases |w|
  {
    if w == [] {
      assert w + b == b;
    } else {
      assert (w + b)[1..] == w[1..] + b;
      TrimStartOfRun(w[1..], b);
    }
  }

  /** A name that does not start with a blank keeps its first character. */
  lemma UnderscoreWhitespaceNonEmpty(s: string)
    requires s != []
    ensures UnderscoreWhitespace(s) != []
  {
  }

  // ---------------------------------------------------------------------
  // The whole of safeBaseName
  // ---------------------------------------------------------------------

  /** The four steps in order, the empty input replaced by the fallback
      first and an empty outcome replaced by it last. The base name is never
      empty and consists of word characters, Arabic letters and hyphens. */
  function SafeBaseName(fileName: string): (r: string)
    ensures r != []
    ensures forall k :: 0 <= k < |r| ==> IsSafe(r[k])
  {
    var start := if fileName == [] then Fallback else fileName;
    var kept := RemoveUnsafe(StripExtension(start));
    TrimKeepsKept(kept);
    UnderscoreWhitespaceSafe(Trim(kept));
    FallbackSafe();
    var name := UnderscoreWhitespace(Trim(kept));
    if name == [] then Fallback else name
  }

  /** The fallback name is itself safe. */
  lemma FallbackSafe()
    ensures Fallback != []
    ensures forall k :: 0 <= k < |Fallback| ==> IsSafe(Fallback[k])
  {
  }

  /** The base name holds no `.`, no `/` and no white space, so it cannot
      carry an extension, a path or a blank. */
  lemma SafeBaseNameIsSafe(fileName: string)
    ensures '.' !in SafeBaseName(fileName) && '/' !in SafeBaseName(fileName)
    ensures forall k :: 0 <= k < |SafeBaseName(fileName)| ==> !IsJsWhitespace(SafeBaseName(fileName)[k])
  {
    var r := SafeBaseName(fileName);
    forall k | 0 <= k < |r|
      ensures r[k] != '.' && r[k] != '/' && !IsJsWhitespace(r[k])
    {
      SafeIsNotWhitespace(r[k]);
    }
  }

  /** A non-empty name made only of safe characters is its own base name. */
  lemma SafeBaseNameOfSafe(s: string)
    requires s != []
    requires forall k :: 0 <= k < |s| ==> IsSafe(s[k])
    ensures SafeBaseName(s) == s
  {
    StripExtensionWithoutDot(s);
    RemoveUnsafeIdentity(s);
    SafeIsNotWhitespace(s[0]);
    SafeIsNotWhitespace(s[|s| - 1]);
    TrimIdentity(s);
    forall k | 0 <= k < |s| ensures !IsJsWhitespace(s[k]) {
      SafeIsNotWhitespace(s[k]);
    }
    UnderscoreWhitespaceIdentity(s);
  }

  /** Applying safeBaseName twice gives the same name as applying it once. */
  lemma SafeBaseNameIdempotent(fileName: string)
    ensures SafeBaseName(SafeBaseName(fileName)) == SafeBaseName(fileName)
  {
    SafeBaseNameOfSafe(SafeBaseName(fileName));
  }

  /** A missing name gives the fallback. */
  lemma SafeBaseNameOfEmpty()
    ensures SafeBaseName("") == "image"
  {
    FallbackSafe();
    SafeBaseNameOfSafe(Fallback);
  }

  /** A non-empty name none of whose characters the class keeps gives the
      fallback, whatever its extension. */
  lemma SafeBaseNameOfNothingKept(fileName: string)
    requires fileName != []
    requires forall k :: 0 <= k < |fileName| ==> !IsKept(fileName[k])
    ensures SafeBaseName(fileName) == Fallback
  {
    var t := StripExtension(fileName);
    assert forall k :: 0 <= k < |t| ==> t[k] == fileName[k];
    RemoveUnsafeOfUnkept(t);
    assert Trim([]) == [];
  }

  /** For instance, "!!!" gives the fallback. */
  lemma SafeBaseNameOfPunctuation()
    ensures SafeBaseName("!!!") == "image"
  {
    SafeBaseNameOfNothingKept("!!!");
  }

  /** A name that is all extension, such as ".png", loses everything and
      gives the fallback. */
  lemma SafeBaseNameOfDotFile()
    ensures SafeBaseName(".png") == "image"
  {
    assert ExtensionAt(".png", 0);
    StripExtensionMatchesRegex(".png");
    assert Trim("") == "";
  }

  /** `.JPG` is the extension of "My Photo!!.JPG". */
  lemma ExampleStrip()
    ensures StripExtension("My Photo!!.JPG") == "My Photo!!"
  {
    assert ExtensionAt("My Photo!!.JPG", 10);
    StripExtensionMatchesRegex("My Photo!!.JPG");
  }

  /** Letters and the space are all kept. */
  lemma ExampleKept()
    ensures RemoveUnsafe("My Photo") == "My Photo"
  {
    RemoveUnsafeIdentity("My Photo");
  }

  /** The exclamation marks are removed, the space is kept. */
  lemma ExampleRemove()
    ensures RemoveUnsafe("My Photo!!") == "My Photo"
  {
    assert "My Photo!!" == "My Photo" + "!!";
    RemoveUnsafeAppend("My Photo", "!!");
    ExampleKept();
    assert RemoveUnsafe("!!") == "";
    assert "My Photo" + "" == "My Photo";
  }

  /** Nothing to trim at either end. */
  lemma ExampleTrim()
    ensures Trim("My Photo") == "My Photo"
  {
    TrimIdentity("My Photo");
  }

  /** The inner space becomes an underscore. */
  lemma ExampleUnderscore()
    ensures UnderscoreWhitespace("My Photo") == "My_Photo"
  {
    assert "My Photo" == "My" + [' '] + "Photo";
    UnderscoreWhitespaceIdentity("Photo");
    UnderscoreWhitespaceRun("My", [' '], "Photo");
    assert "My" + "_" + "Photo" == "My_Photo";
  }

  /** The extension goes, punctuation goes, and the inner space becomes `_`. */
  lemma SafeBaseNameExample()
    ensures SafeBaseName("My Photo!!.JPG") == "My_Photo"
  {
    ExampleStrip();
    ExampleRemove();
    ExampleTrim();
    ExampleUnderscore();
  }
}
