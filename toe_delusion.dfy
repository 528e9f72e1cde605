/** Capitalisation steganography: a secret is hidden in a carrier text by
    upper-casing, left to right, the first carrier characters that match the
    secret's characters in order; it is read back by keeping the upper-case
    characters. */
module ToeDelusion {
  import opened Ascii

  datatype Option<T> = None | Some(value: T)

  /** What a successful embedding returns: the rewritten carrier and the sum
      of the positions that were upper-cased. */
  datatype Embedding = Embedding(text: string, indexSum: nat)

  // ---------------------------------------------------------------------
  // Normalising the secret
  // ---------------------------------------------------------------------

  /** s.replace(" ", "") */
  function RemoveSpaces(s: string): (r: string)
    ensures ' ' !in r
    ensures |r| <= |s|
  {
    if s == [] then []
    else (if s[0] == ' ' then [] else [s[0]]) + RemoveSpaces(s[1..])
  }

  /** s.lower(): same length, no upper-case character left, and each
      character agrees with the input's up to case. */
  function LowerAll(s: string): (r: string)
    ensures |r| == |s|
    ensures forall j :: 0 <= j < |r| ==> !IsUpper(r[j]) && Lower(r[j]) == Lower(s[j])
  {
    seq(|s|, j requires 0 <= j < |s| => Lower(s[j]))
  }

  /** The secret as the matcher sees it: spaces removed, then lower-cased. */
  function Normalize(secret: string): (r: string)
    ensures ' ' !in r
    ensures forall j :: 0 <= j < |r| ==> !IsUpper(r[j])
    ensures |r| <= |secret|
  {
    LowerAll(RemoveSpaces(secret))
  }

  /** Two secrets that differ only in letter case normalise alike. */
  lemma {:induction false} NormalizeIgnoresCase(s: string, u: string)
    requires |s| == |u|
    requires forall j :: 0 <= j < |s| ==> Lower(s[j]) == Lower(u[j])
    ensures Normalize(s) == Normalize(u)
  {
    RemoveSpacesIgnoresCase(s, u);
  }

  lemma {:induction false} RemoveSpacesIgnoresCase(s: string, u: string)
    requires |s| == |u|
    requires forall j :: 0 <= j < |s| ==> Lower(s[j]) == Lower(u[j])
    ensures |RemoveSpaces(s)| == |RemoveSpaces(u)|
    ensures LowerAll(RemoveSpaces(s)) == LowerAll(RemoveSpaces(u))
  {
    if s != [] {
      RemoveSpacesIgnoresCase(s[1..], u[1..]);
      // a space lower-cases only from a space
      assert s[0] == ' ' <==> u[0] == ' ' by {
        assert Lower(s[0]) == Lower(u[0]);
      }
      var hs := if s[0] == ' ' then [] else [s[0]];
      var hu := if u[0] == ' ' then [] else [u[0]];
      LowerAllAppend(hs, RemoveSpaces(s[1..]));
      LowerAllAppend(hu, RemoveSpaces(u[1..]));
    }
  }

  lemma LowerAllAppend(a: string, b: string)
    ensures LowerAll(a + b) == LowerAll(a) + LowerAll(b)
  {
  }

  /** Inserting a space anywhere in the secret does not change its normal form. */
  lemma {:induction false} NormalizeIgnoresSpace(s: string, i: nat)
    requires i <= |s|
    ensures Normalize(s[..i] + " " + s[i..]) == Normalize(s)
  {
    RemoveSpacesIgnoresSpace(s, i);
  }

  lemma {:induction false} RemoveSpacesIgnoresSpace(s: string, i: nat)
    requires i <= |s|
    ensures RemoveSpaces(s[..i] + " " + s[i..]) == RemoveSpaces(s)
  {
    var w := s[..i] + " " + s[i..];
    if i == 0 {
      assert w[0] == ' ' && w[1..] == s;
    } else {
      assert w[0] == s[0];
      assert w[1..] == s[1..][..i - 1] + " " + s[1..][i - 1..];
      RemoveSpacesIgnoresSpace(s[1..], i - 1);
    }
  }

  /** A secret that is already space-free and lower-case is its own normal form. */
  lemma {:induction false} NormalizeFixed(s: string)
    requires ' ' !in s
    requires forall j :: 0 <= j < |s| ==> !IsUpper(s[j])
    ensures Normalize(s) == s
  {
    RemoveSpacesNoSpace(s);
  }

  /** Normalising twice is normalising once. */
  lemma NormalizeIdempotent(s: string)
    ensures Normalize(Normalize(s)) == Normalize(s)
  {
    NormalizeFixed(Normalize(s));
  }

  /** Normalisation works character by character: it distributes over
      concatenation, drops a space and lower-cases any other character. So
      the secret's non-space characters survive, lower-cased, in order. */
  lemma NormalizeAppend(a: string, b: string)
    ensures Normalize(a + b) == Normalize(a) + Normalize(b)
  {
    RemoveSpacesAppend(a, b);
    LowerAllAppend(RemoveSpaces(a), RemoveSpaces(b));
  }

  lemma NormalizeSingle(c: char)
    ensures Normalize([c]) == if c == ' ' then [] else [Lower(c)]
  {
    assert [c][1..] == [];
  }

  lemma {:induction false} RemoveSpacesAppend(a: string, b: string)
    ensures RemoveSpaces(a + b) == RemoveSpaces(a) + RemoveSpaces(b)
  {
    if a == [] {
      assert a + b == b;
    } else {
      assert (a + b)[0] == a[0] && (a + b)[1..] == a[1..] + b;
      RemoveSpacesAppend(a[1..], b);
    }
  }

  lemma {:induction false} RemoveSpacesNoSpace(s: string)
    requires ' ' !in s
    ensures RemoveSpaces(s) == s
  {
    if s != [] {
      assert s[0] != ' ';
      RemoveSpacesNoSpace(s[1..]);
      assert [s[0]] + s[1..] == s;
    }
  }

  // ---------------------------------------------------------------------
  // The greedy, leftmost scan
  // ---------------------------------------------------------------------

  predicate Increasing(ix: seq<nat>) {
    forall a, b :: 0 <= a < b < |ix| ==> ix[a] < ix[b]
  }

  /** The positions the scan records when it is at carrier position i with
      target[k] the next secret character to place. */
  function ScanFrom(carrier: string, target: string, i: nat, k: nat): (r: seq<nat>)
    requires i <= |carrier| && k <= |target|
    ensures |r| <= |target| - k && |r| <= |carrier| - i
    decreases |carrier| - i
  {
    if i == |carrier| || k == |target| then []
    else if Lower(carrier[i]) == target[k] then [i] + ScanFrom(carrier, target, i + 1, k + 1)
    else ScanFrom(carrier, target, i + 1, k)
  }

  /** r places target[k..k + |r|] in order, case-insensitively, at carrier
      positions from i on. */
  predicate PlacedFrom(carrier: string, target: string, i: nat, k: nat, r: seq<nat>) {
    && Increasing(r)
    && k + |r| <= |target|
    && forall m :: 0 <= m < |r| ==> i <= r[m] < |carrier| && Lower(carrier[r[m]]) == target[k + m]
  }

  /** Every position the scan records holds the secret character it was
      recorded for, and the positions increase. */
  lemma {:induction false} ScanSound(carrier: string, target: string, i: nat, k: nat)
    requires i <= |carrier| && k <= |target|
    ensures PlacedFrom(carrier, target, i, k, ScanFrom(carrier, target, i, k))
    decreases |carrier| - i
  {
    if i < |carrier| && k < |target| {
      if Lower(carrier[i]) == target[k] {
        ScanSound(carrier, target, i + 1, k + 1);
        var r' := ScanFrom(carrier, target, i + 1, k + 1);
        var r := [i] + r';
        forall m | 0 <= m < |r|
          ensures i <= r[m] < |carrier| && Lower(carrier[r[m]]) == target[k + m]
        {
          if m > 0 {
            assert r[m] == r'[m - 1] && k + m == (k + 1) + (m - 1);
          }
        }
        forall a, b | 0 <= a < b < |r|
          ensures r[a] < r[b]
        {
          assert r[b] == r'[b - 1];
          if a > 0 {
            assert r[a] == r'[a - 1];
          }
        }
      } else {
        ScanSound(carrier, target, i + 1, k);
      }
    }
  }

  /** The positions the whole scan records. */
  function MatchPositions(carrier: string, target: string): seq<nat> {
    ScanFrom(carrier, target, 0, 0)
  }

  /** The carrier with exactly the positions in ix upper-cased. */
  function Capitalized(carrier: string, ix: seq<nat>): string {
    seq(|carrier|, j requires 0 <= j < |carrier| => if j in ix then Upper(carrier[j]) else carrier[j])
  }

  /** sum(indices): no recorded position exceeds the sum. */
  function Sum(ix: seq<nat>): (r: nat)
    ensures forall m :: 0 <= m < |ix| ==> ix[m] <= r
  {
    if ix == [] then 0 else ix[0] + Sum(ix[1..])
  }

  /** Adding one more recorded position adds it to the sum, as the loop's
      appends to `indices` followed by `sum(indices)` do. */
  lemma {:induction false} SumAppend(ix: seq<nat>, x: nat)
    ensures Sum(ix + [x]) == Sum(ix) + x
  {
    if ix == [] {
      assert ix + [x] == [x];
    } else {
      assert (ix + [x])[1..] == ix[1..] + [x];
      SumAppend(ix[1..], x);
    }
  }

  /** embed_message as a value: None where the source raises ValueError. */
  function Embed(secret: string, carrier: string): (r: Option<Embedding>)
    ensures r.Some? ==> |r.value.text| == |carrier|
  {
    var target := Normalize(secret);
    var ix := MatchPositions(carrier, target);
    if |ix| < |target| then None else Some(Embedding(Capitalized(carrier, ix), Sum(ix)))
  }

  /** embed_message: copies the carrier into a buffer, scans it once and
      upper-cases each greedy match in place. */
  method EmbedMessage(targetMessage: string, largerMessage: string) returns (r: Option<Embedding>)
    ensures r == Embed(targetMessage, largerMessage)
  {
    var target := Normalize(targetMessage);
    var chars := new char[|largerMessage|](j requires 0 <= j < |largerMessage| => largerMessage[j]);
    var targetIndex: nat := 0;
    var indices: seq<nat> := [];
    var i: nat := 0;
    assert chars[..] == largerMessage;
    CapitalizedNone(largerMessage);
    while i < chars.Length
      invariant 0 <= i <= chars.Length == |largerMessage|
      invariant targetIndex == |indices| <= |target|
      invariant indices + ScanFrom(largerMessage, target, i, targetIndex) == MatchPositions(largerMessage, target)
      invariant forall m :: 0 <= m < |indices| ==> indices[m] < i
      invariant chars[..] == Capitalized(largerMessage, indices)
    {
      if targetIndex >= |target| {
        break;
      }
      var ch := chars[i];
      CapitalizedAt(largerMessage, indices, i);
      ScanStep(largerMessage, target, i, targetIndex, indices);
      if Lower(ch) == target[targetIndex] {
        chars[i] := Upper(ch);
        CapitalizedMark(largerMessage, indices, i);
        indices := indices + [i];
        targetIndex := targetIndex + 1;
      }
      i := i + 1;
    }
    EmbedFromPositions(targetMessage, largerMessage, i, targetIndex, indices);
    if targetIndex < |target| {
      return None;
    }
    r := Some(Embedding(chars[..], Sum(indices)));
  }

  lemma CapitalizedNone(carrier: string)
    ensures Capitalized(carrier, []) == carrier
  {
  }

  /** One step of the scan, seen from a prefix of recorded positions. */
  lemma ScanStep(carrier: string, target: string, i: nat, k: nat, done: seq<nat>)
    requires i < |carrier| && k < |target|
    requires done + ScanFrom(carrier, target, i, k) == MatchPositions(carrier, target)
    ensures Lower(carrier[i]) == target[k] ==>
      (done + [i]) + ScanFrom(carrier, target, i + 1, k + 1) == MatchPositions(carrier, target)
    ensures Lower(carrier[i]) != target[k] ==>
      done + ScanFrom(carrier, target, i + 1, k) == MatchPositions(carrier, target)
  {
    if Lower(carrier[i]) == target[k] {
      assert (done + [i]) + ScanFrom(carrier, target, i + 1, k + 1)
          == done + ([i] + ScanFrom(carrier, target, i + 1, k + 1));
    }
  }

  /** Once the scan has stopped, what it recorded decides the result. */
  lemma EmbedFromPositions(secret: string, carrier: string, i: nat, k: nat, done: seq<nat>)
    requires i <= |carrier| && k == |done| <= |Normalize(secret)|
    requires i == |carrier| || k == |Normalize(secret)|
    requires done + ScanFrom(carrier, Normalize(secret), i, k) == MatchPositions(carrier, Normalize(secret))
    ensures Embed(secret, carrier)
      == if k < |Normalize(secret)| then None else Some(Embedding(Capitalized(carrier, done), Sum(done)))
  {
    assert ScanFrom(carrier, Normalize(secret), i, k) == [];
    assert done == MatchPositions(carrier, Normalize(secret));
  }

  lemma CapitalizedAt(carrier: string, ix: seq<nat>, i: nat)
    requires i < |carrier|
    requires forall m :: 0 <= m < |ix| ==> ix[m] < i
    ensures Capitalized(carrier, ix)[i] == carrier[i]
  {
    assert i !in ix;
  }

  lemma CapitalizedMark(carrier: string, ix: seq<nat>, i: nat)
    requires i < |carrier|
    ensures Capitalized(carrier, ix + [i]) == Capitalized(carrier, ix)[i := Upper(carrier[i])]
  {
    assert forall j :: j in ix + [i] <==> j in ix || j == i;
  }

  // ---------------------------------------------------------------------
  // What a successful embedding looks like
  // ---------------------------------------------------------------------

  /** On success there is one recorded position per secret character; they
      increase; each holds a carrier character equal to the secret character
      up to case, now upper-cased; every other position keeps the carrier's
      character; and indexSum is the sum of the positions. */
  lemma EmbedSuccess(secret: string, carrier: string)
    requires Embed(secret, carrier).Some?
    ensures var target := Normalize(secret);
      var ix := MatchPositions(carrier, target);
      var e := Embed(secret, carrier).value;
      && |ix| == |target|
      && Increasing(ix)
      && |e.text| == |carrier|
      && (forall m :: 0 <= m < |ix| ==>
            ix[m] < |carrier| && Lower(carrier[ix[m]]) == target[m] && e.text[ix[m]] == Upper(carrier[ix[m]]))
      && (forall j :: 0 <= j < |carrier| && j !in ix ==> e.text[j] == carrier[j])
      && e.indexSum == Sum(ix)
  {
    ScanSound(carrier, Normalize(secret), 0, 0);
  }

  /** No carrier character in [lo, hi) matches x up to case. */
  predicate NoMatchBetween(carrier: string, x: char, lo: nat, hi: nat) {
    lo <= hi <= |carrier| && forall p :: lo <= p < hi ==> Lower(carrier[p]) != x
  }

  /** Where the search for the m-th recorded position began. */
  function SearchStart(i: nat, r: seq<nat>, m: nat): nat
    requires m < |r|
  {
    if m == 0 then i else r[m - 1] + 1
  }

  /** The scan is leftmost: between where the search for the m-th recorded
      position began (the previous recorded position, or where the scan
      began) and that position, no carrier character matches the secret
      character being placed. */
  lemma {:induction false} ScanLeftmost(carrier: string, target: string, i: nat, k: nat, m: nat)
    requires i <= |carrier| && k <= |target|
    requires m < |ScanFrom(carrier, target, i, k)|
    ensures var r := ScanFrom(carrier, target, i, k);
      NoMatchBetween(carrier, target[k + m], SearchStart(i, r, m), r[m])
    decreases |carrier| - i
  {
    var r := ScanFrom(carrier, target, i, k);
    if Lower(carrier[i]) == target[k] {
      var r' := ScanFrom(carrier, target, i + 1, k + 1);
      assert r == [i] + r';
      if m > 0 {
        ScanLeftmost(carrier, target, i + 1, k + 1, m - 1);
        assert SearchStart(i, r, m) == SearchStart(i + 1, r', m - 1);
        assert r[m] == r'[m - 1] && k + m == (k + 1) + (m - 1);
      }
    } else {
      var r' := ScanFrom(carrier, target, i + 1, k);
      assert r == r';
      ScanLeftmost(carrier, target, i + 1, k, m);
      if m > 0 {
        assert SearchStart(i, r, m) == SearchStart(i + 1, r', m);
      }
    }
  }

  /** Greedy matching is complete: if the target can be matched at all, in
      order, at positions from i on, the scan from i places all of it. */
  lemma {:induction false} ScanComplete(carrier: string, target: string, i: nat, k: nat, ix: seq<nat>)
    requires i <= |carrier| && k <= |target|
    requires |ix| == |target| - k && Increasing(ix)
    requires forall m :: 0 <= m < |ix| ==> i <= ix[m] < |carrier| && Lower(carrier[ix[m]]) == target[k + m]
    ensures |ScanFrom(carrier, target, i, k)| == |target| - k
    decreases |carrier| - i
  {
    if k < |target| {
      assert i < |carrier| by { assert i <= ix[0] < |carrier|; }
      if Lower(carrier[i]) == target[k] {
        ScanComplete(carrier, target, i + 1, k + 1, ix[1..]);
      } else {
        assert ix[0] != i;
        ScanComplete(carrier, target, i + 1, k, ix);
      }
    }
  }

  /** An in-order, case-insensitive placement of all of target in carrier. */
  predicate IsPlacement(carrier: string, target: string, ix: seq<nat>) {
    |ix| == |target| && PlacedFrom(carrier, target, 0, 0, ix)
  }

  /** target is a subsequence of the lower-cased carrier. */
  ghost predicate Embeddable(carrier: string, target: string) {
    exists ix :: IsPlacement(carrier, target, ix)
  }

  /** Embedding fails exactly when the normalised secret is not a
      subsequence of the lower-cased carrier: no other choice of positions
      could succeed where the greedy scan fails. */
  lemma EmbedFailsIffNotEmbeddable(secret: string, carrier: string)
    ensures Embed(secret, carrier).None? <==> !Embeddable(carrier, Normalize(secret))
  {
    var target := Normalize(secret);
    var ix := MatchPositions(carrier, target);
    ScanSound(carrier, target, 0, 0);
    if Embed(secret, carrier).Some? {
      assert IsPlacement(carrier, target, ix);
    }
    if Embeddable(carrier, target) {
      var w :| IsPlacement(carrier, target, w);
      ScanComplete(carrier, target, 0, 0, w);
    }
  }

  /** An empty normalised secret leaves the carrier as it is, with sum 0. */
  lemma EmbedEmptySecret(secret: string, carrier: string)
    requires Normalize(secret) == []
    ensures Embed(secret, carrier) == Some(Embedding(carrier, 0))
  {
    CapitalizedNone(carrier);
  }

  /** A non-empty normalised secret cannot be placed in an empty carrier. */
  lemma EmbedEmptyCarrier(secret: string)
    requires Normalize(secret) != []
    ensures Embed(secret, []) == None
  {
  }

  /** Case and spaces in the secret do not matter: "DOG" and "d o g" embed
      as "dog" does. */
  lemma EmbedDogVariants(carrier: string)
    ensures Embed("DOG", carrier) == Embed("dog", carrier) == Embed("d o g", carrier)
  {
    assert Normalize("dog") == Normalize("DOG") by {
      NormalizeIgnoresCase("dog", "DOG");
    }
    assert Normalize("dog") == Normalize("d o g") by {
      NormalizeIgnoresSpace("dog", 1);
      assert "dog"[..1] + " " + "dog"[1..] == "d og";
      NormalizeIgnoresSpace("d og", 3);
      assert "d og"[..3] + " " + "d og"[3..] == "d o g";
    }
  }

  // ---------------------------------------------------------------------
  // Extraction
  // ---------------------------------------------------------------------

  /** extract_hidden_message: the upper-case characters of s, in order. */
  function ExtractHiddenMessage(s: string): (r: string)
    ensures |r| <= |s|
    ensures forall j :: 0 <= j < |r| ==> IsUpper(r[j])
  {
    if s == [] then [] else (if IsUpper(s[0]) then [s[0]] else []) + ExtractHiddenMessage(s[1..])
  }

  /** Extraction works character by character: it distributes over
      concatenation, keeps an upper-case character and drops any other. */
  lemma {:induction false} ExtractAppend(a: string, b: string)
    ensures ExtractHiddenMessage(a + b) == ExtractHiddenMessage(a) + ExtractHiddenMessage(b)
  {
    if a == [] {
      assert a + b == b;
    } else {
      assert (a + b)[0] == a[0] && (a + b)[1..] == a[1..] + b;
      ExtractAppend(a[1..], b);
    }
  }

  lemma ExtractSingle(c: char)
    ensures ExtractHiddenMessage([c]) == if IsUpper(c) then [c] else []
  {
    assert [c][1..] == [];
  }

  /** A text of upper-case characters only is its own hidden message. */
  lemma {:induction false} ExtractAllUpper(s: string)
    requires forall j :: 0 <= j < |s| ==> IsUpper(s[j])
    ensures ExtractHiddenMessage(s) == s
  {
    if s != [] {
      ExtractAllUpper(s[1..]);
      assert [s[0]] + s[1..] == s;
    }
  }

  /** A text without upper-case characters hides nothing. */
  lemma {:induction false} ExtractNoUpper(s: string)
    requires forall j :: 0 <= j < |s| ==> !IsUpper(s[j])
    ensures ExtractHiddenMessage(s) == []
  {
    if s != [] {
      ExtractNoUpper(s[1..]);
    }
  }

  /** Extracting twice is extracting once. */
  lemma ExtractIdempotent(s: string)
    ensures ExtractHiddenMessage(ExtractHiddenMessage(s)) == ExtractHiddenMessage(s)
  {
    ExtractAllUpper(ExtractHiddenMessage(s));
  }

  // ---------------------------------------------------------------------
  // Round trip
  // ---------------------------------------------------------------------

  /** s.upper() */
  function UpperAll(s: string): string {
    seq(|s|, j requires 0 <= j < |s| => Upper(s[j]))
  }

  /** Upper-casing letters at increasing positions of a text that has no
      upper-case characters hides exactly those letters. */
  lemma {:induction false} ExtractCapitalized(carrier: string, target: string, ix: seq<nat>)
    requires forall j :: 0 <= j < |carrier| ==> !IsUpper(carrier[j])
    requires |ix| == |target| && Increasing(ix)
    requires forall m :: 0 <= m < |ix| ==> ix[m] < |carrier| && carrier[ix[m]] == target[m] && IsLower(target[m])
    ensures ExtractHiddenMessage(Capitalized(carrier, ix)) == UpperAll(target)
    decreases |carrier|
  {
    var cap := Capitalized(carrier, ix);
    if ix == [] {
      assert cap == carrier;
      ExtractNoUpper(carrier);
    } else {
      var last := |ix| - 1;
      assert ix[last] < |carrier|;
      var n := |carrier| - 1;
      assert cap == cap[..n] + [cap[n]];
      ExtractAppend(cap[..n], [cap[n]]);
      ExtractSingle(cap[n]);
      if ix[last] == n {
        CapitalizedDropMarked(carrier, ix);
        ExtractCapitalized(carrier[..n], target[..last], ix[..last]);
        assert cap[n] == Upper(target[last]);
        assert UpperAll(target) == UpperAll(target[..last]) + [Upper(target[last])];
      } else {
        CapitalizedDropUnmarked(carrier, ix);
        ExtractCapitalized(carrier[..n], target, ix);
      }
    }
  }

  /** Dropping the last carrier character when it is the last marked one. */
  lemma CapitalizedDropMarked(carrier: string, ix: seq<nat>)
    requires ix != [] && Increasing(ix) && ix[|ix| - 1] == |carrier| - 1
    ensures Capitalized(carrier, ix)[..|carrier| - 1] == Capitalized(carrier[..|carrier| - 1], ix[..|ix| - 1])
    ensures Capitalized(carrier, ix)[|carrier| - 1] == Upper(carrier[|carrier| - 1])
  {
    var n, ix' := |carrier| - 1, ix[..|ix| - 1];
    forall j | 0 <= j < n
      ensures j in ix <==> j in ix'
    {
      if j in ix {
        var m :| 0 <= m < |ix| && ix[m] == j;
        assert ix'[m] == j;
      }
    }
  }

  /** Dropping the last carrier character when no mark reaches it. */
  lemma CapitalizedDropUnmarked(carrier: string, ix: seq<nat>)
    requires carrier != [] && ix != [] && Increasing(ix) && ix[|ix| - 1] < |carrier| - 1
    ensures Capitalized(carrier, ix)[..|carrier| - 1] == Capitalized(carrier[..|carrier| - 1], ix)
    ensures Capitalized(carrier, ix)[|carrier| - 1] == carrier[|carrier| - 1]
  {
    var n := |carrier| - 1;
    forall m | 0 <= m < |ix|
      ensures ix[m] < n
    {
      assert m < |ix| - 1 ==> ix[m] < ix[|ix| - 1];
    }
  }

  /** Reading back an embedding in a carrier with no upper-case characters,
      of a secret made of letters, yields the normalised secret upper-cased. */
  lemma RoundTrip(secret: string, carrier: string)
    requires forall j :: 0 <= j < |carrier| ==> !IsUpper(carrier[j])
    requires forall j :: 0 <= j < |Normalize(secret)| ==> IsLetter(Normalize(secret)[j])
    requires Embed(secret, carrier).Some?
    ensures ExtractHiddenMessage(Embed(secret, carrier).value.text) == UpperAll(Normalize(secret))
  {
    var target := Normalize(secret);
    var ix := MatchPositions(carrier, target);
    ScanSound(carrier, target, 0, 0);
    forall m | 0 <= m < |ix|
      ensures carrier[ix[m]] == target[m] && IsLower(target[m])
    {
      assert Lower(carrier[ix[m]]) == target[m];
    }
    ExtractCapitalized(carrier, target, ix);
  }
}
