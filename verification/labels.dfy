/**
 Normalisation of a table label into a record key (`iter_rows`, app.py line 14):
 every space becomes `_`, every non-word character is removed, and the result
 is lower-cased -- three passes, applied in that order.
 */
module Labels {

  /** A word character of a regular expression's `\w`: a letter, a digit or `_`. */
  predicate IsWordChar(c: char) {
    ('a' <= c <= 'z') || ('A' <= c <= 'Z') || ('0' <= c <= '9') || c == '_'
  }

  predicate IsUpper(c: char) {
    'A' <= c <= 'Z'
  }

  function ToLower(c: char): (d: char)
    ensures !IsUpper(d)
    ensures IsWordChar(c) <==> IsWordChar(d)
  {
    if IsUpper(c) then (c as int + 32) as char else c
  }

  /** A string that is already a key: only lower-case word characters. */
  predicate IsKey(s: string) {
    forall i :: 0 <= i < |s| ==> IsWordChar(s[i]) && !IsUpper(s[i])
  }

  /** First pass: `re.sub(r' ', '_', raw)`. */
  function ReplaceSpaces(s: string): (r: string)
    ensures |r| == |s|
    ensures forall i :: 0 <= i < |s| ==> r[i] == (if s[i] == ' ' then '_' else s[i])
  {
    if s == [] then [] else [if s[0] == ' ' then '_' else s[0]] + ReplaceSpaces(s[1..])
  }

  /** Second pass: `re.sub(r'\W', '', ...)`. */
  function StripNonWord(s: string): (r: string)
    ensures |r| <= |s|
    ensures forall i :: 0 <= i < |r| ==> IsWordChar(r[i])
    ensures |s| == 1 ==> r == (if IsWordChar(s[0]) then s else [])
  {
    if s == [] then []
    else (if IsWordChar(s[0]) then [s[0]] else []) + StripNonWord(s[1..])
  }

  /** Removing non-word characters from a concatenation removes them from each part. */
  lemma {:induction false} StripNonWordAppend(a: string, b: string)
    ensures StripNonWord(a + b) == StripNonWord(a) + StripNonWord(b)
    decreases |a|
  {
    if a == [] {
      assert a + b == b;
    } else {
      assert (a + b)[0] == a[0];
      assert (a + b)[1..] == a[1..] + b;
      StripNonWordAppend(a[1..], b);
    }
  }

  /** Third pass: `.lower()`. */
  function Lower(s: string): (r: string)
    ensures |r| == |s|
    ensures forall i :: 0 <= i < |s| ==> r[i] == ToLower(s[i])
  {
    if s == [] then [] else [ToLower(s[0])] + Lower(s[1..])
  }

  /** The key a raw label is stored under, computed as app.py does: three passes. */
  function Normalize(raw: string): (key: string)
    ensures IsKey(key)
    ensures |key| <= |raw|
  {
    Lower(StripNonWord(ReplaceSpaces(raw)))
  }

  /** What one raw character contributes to the key, taken on its own. */
  function NormalizeChar(c: char): (k: string)
  {
    if c == ' ' then "_" else if IsWordChar(c) then [ToLower(c)] else []
  }

  /** Reference definition: the key is the concatenation of what each character contributes. */
  function NormalizeByChar(raw: string): string
  {
    if raw == [] then [] else NormalizeChar(raw[0]) + NormalizeByChar(raw[1..])
  }

  lemma {:induction false} NormalizeByCharAppend(a: string, b: string)
    ensures NormalizeByChar(a + b) == NormalizeByChar(a) + NormalizeByChar(b)
  {
    if a == [] {
      assert a + b == b;
    } else {
      assert (a + b)[0] == a[0];
      assert (a + b)[1..] == a[1..] + b;
      NormalizeByCharAppend(a[1..], b);
    }
  }

  /** The three passes of app.py agree, on every label, with the per-character reference. */
  lemma {:induction false} NormalizeMatchesByChar(raw: string)
    ensures Normalize(raw) == NormalizeByChar(raw)
  {
    if raw != [] {
      var c := raw[0];
      var c' := if c == ' ' then '_' else c;
      assert ReplaceSpaces(raw) == [c'] + ReplaceSpaces(raw[1..]);
      assert StripNonWord([c'] + ReplaceSpaces(raw[1..]))
          == (if IsWordChar(c') then [c'] else []) + StripNonWord(ReplaceSpaces(raw[1..])) by {
        assert ([c'] + ReplaceSpaces(raw[1..]))[1..] == ReplaceSpaces(raw[1..]);
      }
      LowerAppend(if IsWordChar(c') then [c'] else [], StripNonWord(ReplaceSpaces(raw[1..])));
      NormalizeMatchesByChar(raw[1..]);
    }
  }

  lemma {:induction false} LowerAppend(a: string, b: string)
    ensures Lower(a + b) == Lower(a) + Lower(b)
  {
  }

  /** Normalising a concatenation normalises each part independently. */
  lemma {:induction false} NormalizeAppend(a: string, b: string)
    ensures Normalize(a + b) == Normalize(a) + Normalize(b)
  {
    NormalizeMatchesByChar(a + b);
    NormalizeMatchesByChar(a);
    NormalizeMatchesByChar(b);
    NormalizeByCharAppend(a, b);
  }

  /** A string that is already a key normalises to itself. */
  lemma {:induction false} NormalizeKeepsKeys(s: string)
    requires IsKey(s)
    ensures Normalize(s) == s
  {
    NormalizeMatchesByChar(s);
    KeyByChar(s);
  }

  lemma {:induction false} KeyByChar(s: string)
    requires IsKey(s)
    ensures NormalizeByChar(s) == s
  {
    if s != [] {
      assert IsKey(s[1..]) by {
        forall i | 0 <= i < |s[1..]| ensures IsWordChar(s[1..][i]) && !IsUpper(s[1..][i]) {
          assert s[1..][i] == s[i + 1];
        }
      }
      KeyByChar(s[1..]);
      assert NormalizeChar(s[0]) == [s[0]];
    }
  }

  /** Normalisation is idempotent: normalising a key changes nothing. */
  lemma {:induction false} NormalizeIdempotent(raw: string)
    ensures Normalize(Normalize(raw)) == Normalize(raw)
  {
    NormalizeKeepsKeys(Normalize(raw));
  }

  function Count(s: string, c: char): nat
  {
    if s == [] then 0 else (if s[0] == c then 1 else 0) + Count(s[1..], c)
  }

  /** Every space of the label, and every underscore already in it, becomes one `_` of the key. */
  lemma {:induction false} NormalizeUnderscores(raw: string)
    ensures Count(Normalize(raw), '_') == Count(raw, ' ') + Count(raw, '_')
  {
    NormalizeMatchesByChar(raw);
    UnderscoresByChar(raw);
  }

  lemma {:induction false} UnderscoresByChar(raw: string)
    ensures Count(NormalizeByChar(raw), '_') == Count(raw, ' ') + Count(raw, '_')
  {
    if raw != [] {
      UnderscoresByChar(raw[1..]);
      CountAppend(NormalizeChar(raw[0]), NormalizeByChar(raw[1..]), '_');
    }
  }

  lemma {:induction false} CountAppend(a: string, b: string, c: char)
    ensures Count(a + b, c) == Count(a, c) + Count(b, c)
  {
    if a == [] {
      assert a + b == b;
    } else {
      assert (a + b)[0] == a[0];
      assert (a + b)[1..] == a[1..] + b;
      CountAppend(a[1..], b, c);
    }
  }
}
