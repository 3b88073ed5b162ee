/**
 * parseEquipment (functions/index.js:21-38): turns one reply of the vision
 * model into the list of equipment names it mentions. A reply that decodes
 * as a JSON array is returned as it is; a reply that is not JSON at all is
 * read line by line; a reply that is JSON of any other shape yields nothing.
 */
module EquipmentParser {
  import opened JsBuiltins

  /** One element of an array produced by JSON.parse. */
  datatype Element =
    | Text(text: string)  // a JSON string
    | FalsyOther          // null, false or 0
    | TruthyOther         // true, any other number, an object or an array

  /** How JSON.parse(content) ends: with an array, with a value of another
      shape (number, string, object, boolean, null), or by throwing. */
  datatype JsonParse =
    | ParsedArray(elements: seq<Element>)
    | ParsedOther
    | ParseFailed

  /** The bullet class of the regular expression at functions/index.js:33, as the
      file spells it: '-', '*' and the three characters 'â', '€', '¢' (the UTF-8
      bytes of '•' read as Windows-1252). '•' itself is not in the class. */
  const Bullets: set<char> := {'-', '*', '\U{00E2}', '\U{20AC}', '\U{00A2}'}

  /** The bullet-stripping replace of functions/index.js:33: drop at most one
      leading bullet and then every white-space character that directly follows. */
  function StripBullet(line: string): (r: string)
    ensures |r| <= |line| && r == line[|line| - |r|..]
    ensures var n := |line| - |r|;
      || AllWhitespace(line[..n])
      || (n >= 1 && line[0] in Bullets && AllWhitespace(line[1..n]))
    ensures line != [] && line[0] in Bullets ==> |r| < |line|
    ensures r == [] || !IsWhitespace(r[0])
    ensures IsTrimmed(line) ==> IsTrimmed(r)
  {
    var rest := if line != [] && line[0] in Bullets then line[1..] else line;
    var n := LeadingWhitespace(rest);
    assert line != [] && line[0] in Bullets ==> line[1..1 + n] == rest[..n];
    rest[n..]
  }

  predicate NonEmpty(line: string) {
    |line| > 0
  }

  /** The catch branch of parseEquipment (functions/index.js:30-35): split on
      '\n', trim, drop empty lines, strip a bullet, lower-case. */
  function Fallback(content: string): seq<string> {
    Map(Lower, Map(StripBullet, Filter(NonEmpty, Map(Trim, Split(content, '\n')))))
  }

  /** parseEquipment, with the outcome of JSON.parse(content) given as decoded. */
  function ParseEquipment(content: string, decoded: JsonParse): (r: seq<Element>)
    ensures decoded.ParsedArray? ==> r == decoded.elements
    ensures decoded.ParsedOther? ==> r == []
    ensures decoded.ParseFailed? ==>
      && |r| == |Fallback(content)|
      && forall k :: 0 <= k < |r| ==> r[k] == Text(Fallback(content)[k])
  {
    match decoded
    case ParsedArray(elements) => elements
    case ParsedOther => []
    case ParseFailed => Map(line => Text(line), Fallback(content))
  }

  // ---------------------------------------------------------------------------
  // The fallback, line by line

  /** Every name the fallback produces is lower-case and has no white space at
      either end. */
  lemma FallbackNamesAreCanonical(content: string)
    ensures forall k :: 0 <= k < |Fallback(content)| ==>
      IsLowerCase(Fallback(content)[k]) && IsTrimmed(Fallback(content)[k])
  {
    var lines := Split(content, '\n');
    var trimmed := Map(Trim, lines);
    forall l | l in trimmed ensures IsTrimmed(l) {
      var i :| 0 <= i < |trimmed| && trimmed[i] == l;
      assert l == Trim(lines[i]);
    }
    var kept := Filter(NonEmpty, trimmed);
    forall k | 0 <= k < |kept| ensures IsTrimmed(kept[k]) {
      assert kept[k] in trimmed;
    }
    var stripped := Map(StripBullet, kept);
    forall k | 0 <= k < |stripped| ensures IsTrimmed(stripped[k]) {
      assert stripped[k] == StripBullet(kept[k]);
    }
    var lowered := Map(Lower, stripped);
    forall k | 0 <= k < |lowered|
      ensures IsLowerCase(lowered[k]) && IsTrimmed(lowered[k])
    {
      assert lowered[k] == Lower(stripped[k]);
    }
  }

  /** A single line contributes one name unless it is blank; the blank test comes
      before the bullet is stripped. */
  lemma FallbackOfLine(line: string)
    requires '\n' !in line
    ensures Fallback(line) == if AllWhitespace(line) then [] else [Lower(StripBullet(Trim(line)))]
  {
    SplitSingle(line, '\n');
    assert Map(Trim, [line]) == [Trim(line)];
  }

  /** Lines are read independently and kept in their order. */
  lemma FallbackOfLines(a: string, b: string)
    ensures Fallback(a + "\n" + b) == Fallback(a) + Fallback(b)
  {
    SplitConcat(a, b, '\n');
    var sa, sb := Split(a, '\n'), Split(b, '\n');
    MapConcat(Trim, sa, sb);
    var ta, tb := Map(Trim, sa), Map(Trim, sb);
    FilterConcat(NonEmpty, ta, tb);
    var fa, fb := Filter(NonEmpty, ta), Filter(NonEmpty, tb);
    MapConcat(StripBullet, fa, fb);
    MapConcat(Lower, Map(StripBullet, fa), Map(StripBullet, fb));
  }

  // ---------------------------------------------------------------------------
  // Worked examples

  /** A bullet followed by white space and then a name leaves the name. */
  lemma StripBulletSpaced(b: char, gap: string, name: string)
    requires b in Bullets && AllWhitespace(gap) && (name == [] || !IsWhitespace(name[0]))
    ensures StripBullet([b] + gap + name) == name
  {
    var line := [b] + gap + name;
    assert line[1..] == gap + name;
    LeadingWhitespaceAfter(gap, name);
  }

  /** One bulleted line of the usual shape reads as its lower-cased name. */
  lemma BulletedLine(b: char, name: string)
    requires b in Bullets && '\n' !in name && name != [] && IsTrimmed(name)
    ensures Fallback([b] + " " + name) == [Lower(name)]
  {
    var line := [b] + " " + name;
    assert !AllWhitespace(line) by {
      assert !IsWhitespace(line[0]);
    }
    assert IsTrimmed(line) by {
      assert line[|line| - 1] == name[|name| - 1];
    }
    TrimIdempotent(line);
    StripBulletSpaced(b, " ", name);
    assert '\n' !in line by {
      assert line == [b, ' '] + name;
    }
    FallbackOfLine(line);
  }

  /** A bulleted list of names, one per line, reads as the lower-cased names in
      list order. */
  lemma BulletedList(a: string, b: string, c: string)
    requires forall name | name in [a, b, c] :: '\n' !in name && name != [] && IsTrimmed(name)
    ensures Fallback("- " + a + "\n- " + b + "\n* " + c) == [Lower(a), Lower(b), Lower(c)]
  {
    var la, lb, lc := ['-'] + " " + a, ['-'] + " " + b, ['*'] + " " + c;
    assert "- " + a + "\n- " + b + "\n* " + c == la + "\n" + (lb + "\n" + lc);
    FallbackOfLines(la, lb + "\n" + lc);
    FallbackOfLines(lb, lc);
    BulletedLine('-', a);
    BulletedLine('-', b);
    BulletedLine('*', c);
  }

  /** Lower-casing a capitalised word lower-cases its initial only, as in
      "Treadmill" becoming "treadmill". */
  lemma LowerCapitalised(initial: char, rest: string)
    requires 'A' <= initial <= 'Z' && IsLowerCase(rest)
    ensures Lower([initial] + rest) == [(initial as int + 32) as char] + rest
  {
    LowerConcat([initial], rest);
  }

  lemma ExampleLowerTreadmill()
    ensures Lower("Treadmill") == "treadmill"
  {
    LowerCapitalised('T', "readmill");
  }

  /** A line holding only a bullet survives the blank-line filter and comes out
      as the empty name. */
  lemma ExampleLoneBullet()
    ensures Fallback("-") == [""]
  {
    assert !AllWhitespace("-") by {
      assert !IsWhitespace("-"[0]);
    }
    TrimIdempotent("-");
    StripBulletSpaced('-', "", "");
    assert ['-'] + "" + "" == "-";
    FallbackOfLine("-");
  }

  /** A trimmed line with no bullet reads as its lower-cased self. */
  lemma PlainLine(line: string)
    requires '\n' !in line && line != [] && IsTrimmed(line) && line[0] !in Bullets
    ensures Fallback(line) == [Lower(line)]
  {
    assert !AllWhitespace(line) by {
      assert !IsWhitespace(line[0]);
    }
    TrimIdempotent(line);
    assert LeadingWhitespace(line) == 0;
    FallbackOfLine(line);
  }

  /** The glyph '•' is not in the bullet class, so it stays on the name. */
  lemma UnstrippedGlyph(name: string)
    requires '\n' !in name && name != [] && IsTrimmed(name)
    ensures Fallback("\U{2022} " + name) == ["\U{2022} " + Lower(name)]
  {
    var line := "\U{2022} " + name;
    assert line == ['\U{2022}', ' '] + name;
    assert line[|line| - 1] == name[|name| - 1];
    PlainLine(line);
    LowerConcat("\U{2022} ", name);
    assert Lower("\U{2022} ") == "\U{2022} ";
  }

  /** A reply that is valid JSON but not an array yields nothing, although the
      line-based reading would have found a name in it. */
  lemma ExampleNonArrayJson()
    ensures ParseEquipment("42", ParsedOther) == []
    ensures ParseEquipment("42", ParseFailed) == [Text("42")]
  {
    PlainLine("42");
  }
}
