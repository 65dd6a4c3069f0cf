/** The breed-name formatter that the gallery, the table and the CRUD page each carry a copy of:
    split on `-`, upper-case the first character of every piece, join with a space. */
module BreedNames {
  import opened Text

  /** `word.charAt(0).toUpperCase() + word.slice(1)`. */
  function Capitalize(word: string): (r: string)
    ensures |r| == |word|
    ensures word == [] ==> r == []
    ensures word != [] ==> r[0] == UpperAscii(word[0]) && r[1..] == word[1..]
  {
    if word == [] then [] else [UpperAscii(word[0])] + word[1..]
  }

  function CapitalizeAll(words: seq<string>): (r: seq<string>)
    ensures |r| == |words|
    ensures forall k :: 0 <= k < |words| ==> r[k] == Capitalize(words[k])
  {
    seq(|words|, k requires 0 <= k < |words| => Capitalize(words[k]))
  }

  /** `name.split('-').map(capitalize).join(' ')`. */
  function FormatBreedName(name: string): string
  {
    Join(CapitalizeAll(Split(name, '-')), " ")
  }

  /** Reference definition, one character at a time: a `-` becomes a space, the first
      character of the name and every character after a `-` is upper-cased, the rest is kept. */
  function FormattedChar(name: string, k: nat): char
    requires k < |name|
  {
    if name[k] == '-' then ' '
    else if k == 0 || name[k - 1] == '-' then UpperAscii(name[k])
    else name[k]
  }

  function FormattedChars(name: string): (r: string)
    ensures |r| == |name|
  {
    seq(|name|, k requires 0 <= k < |name| => FormattedChar(name, k))
  }

  /** One hyphen-free piece followed by `-` and more text formats piece by piece. */
  lemma {:induction false} FormattedCharsAfterPiece(a: string, t: string)
    requires '-' !in a
    ensures FormattedChars(a + ['-'] + t) == Capitalize(a) + [' '] + FormattedChars(t)
  {
    var s := a + ['-'] + t;
    var lhs := FormattedChars(s);
    var rhs := Capitalize(a) + [' '] + FormattedChars(t);
    forall k | 0 <= k < |s|
      ensures lhs[k] == rhs[k]
    {
      if k < |a| {
        assert s[k] == a[k];
        if k > 0 { assert s[k - 1] == a[k - 1]; }
      } else if k > |a| {
        var j := k - |a| - 1;
        assert s[k] == t[j];
        if j > 0 { assert s[k - 1] == t[j - 1]; } else { assert s[k - 1] == '-'; }
      }
    }
  }

  lemma {:induction false} FormattedCharsPiece(a: string)
    requires '-' !in a
    ensures FormattedChars(a) == Capitalize(a)
  {
    forall k | 0 <= k < |a|
      ensures FormattedChars(a)[k] == Capitalize(a)[k]
    {
      if k > 0 { assert a[k - 1] in a; }
    }
  }

  lemma {:induction false} JoinCapitalized(parts: seq<string>)
    requires |parts| >= 1
    requires forall k :: 0 <= k < |parts| ==> '-' !in parts[k]
    ensures Join(CapitalizeAll(parts), " ") == FormattedChars(Join(parts, "-"))
  {
    if |parts| == 1 {
      FormattedCharsPiece(parts[0]);
    } else {
      var rest := parts[1..];
      JoinCapitalized(rest);
      assert CapitalizeAll(parts)[1..] == CapitalizeAll(rest);
      assert Join(parts, "-") == parts[0] + ['-'] + Join(rest, "-");
      FormattedCharsAfterPiece(parts[0], Join(rest, "-"));
    }
  }

  /** The formatter agrees with the character-by-character definition on every input:
      same length, `-` turned into a space, the first character of each piece upper-cased,
      every other character unchanged. */
  lemma {:induction false} FormatBreedNameCharwise(name: string)
    ensures |FormatBreedName(name)| == |name|
    ensures forall k :: 0 <= k < |name| ==> FormatBreedName(name)[k] == FormattedChar(name, k)
  {
    JoinSplit(name, '-');
    JoinCapitalized(Split(name, '-'));
  }

  /** No `-` survives formatting. */
  lemma {:induction false} FormatNoHyphen(name: string)
    ensures '-' !in FormatBreedName(name)
  {
    FormatBreedNameCharwise(name);
    var r := FormatBreedName(name);
    forall k | 0 <= k < |r| ensures r[k] != '-' {
      assert r[k] == FormattedChar(name, k);
    }
  }

  /** The empty name formats to the empty string. */
  lemma FormatEmpty()
    ensures FormatBreedName("") == ""
  {
    assert '-' !in "";
    assert Split("", '-') == [""];
  }

  /** Formatting an already formatted name changes nothing. */
  lemma {:induction false} FormatIdempotent(name: string)
    ensures FormatBreedName(FormatBreedName(name)) == FormatBreedName(name)
  {
    var r := FormatBreedName(name);
    FormatBreedNameCharwise(name);
    FormatBreedNameCharwise(r);
    FormatNoHyphen(name);
    forall k | 0 <= k < |r|
      ensures FormatBreedName(r)[k] == r[k]
    {
      assert r[k] != '-';
      if k > 0 { assert r[k - 1] != '-'; }
    }
  }
}
