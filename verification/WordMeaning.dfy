/// What it means for a string-list property, such as `compatible`, to contain a string: by positions.
module WordMeaning {
  import opened Bytes
  import opened Tree
  import opened Nodes
  import Msm8916

  /// The text stands at `i`, behind the start or a NUL.
  predicate StartsAt(value: bytes, text: bytes, i: nat) {
    i + |text| <= |value| && value[i..i + |text|] == text && (i == 0 || value[i - 1] == 0)
  }

  /// ... and is followed by a NUL, or by the end of the value.
  predicate WordAt(value: bytes, word: bytes, i: nat) {
    StartsAt(value, word, i) && (i + |word| == |value| || value[i + |word|] == 0)
  }

  ghost predicate HasWord(value: bytes, word: bytes) { exists i: nat :: WordAt(value, word, i) }

  ghost predicate HasStart(value: bytes, prefix: bytes) { exists i: nat :: StartsAt(value, prefix, i) }

  lemma OneOn(value: bytes, text: bytes, i: nat)
    requires value != [] && (i > 0 || value[0] == 0)
    ensures StartsAt(value, text, i + 1) <==> StartsAt(value[1..], text, i)
    ensures WordAt(value, text, i + 1) <==> WordAt(value[1..], text, i)
  {
    if i + 1 + |text| <= |value| {
      assert value[1..][i..i + |text|] == value[i + 1..i + 1 + |text|];
    }
  }

  lemma NulFreeTail(word: bytes)
    requires NulFree(word) && word != []
    ensures NulFree(word[1..])
  {
  }

  lemma FirstLetter(value: bytes, text: bytes)
    requires value != [] && text != []
    ensures StartsAt(value, text, 0) <==> value[0] == text[0] && StartsAt(value[1..], text[1..], 0)
    ensures WordAt(value, text, 0) <==> value[0] == text[0] && WordAt(value[1..], text[1..], 0)
  {
    if |text| <= |value| {
      assert value[0..|text|] == [value[0]] + value[1..][0..|text| - 1] && text == [text[0]] + text[1..];
    }
  }

  /// The first item starts at the front, every other behind a NUL.
  lemma {:induction false} FirstItem(value: bytes, text: bytes)
    requires NulFree(text)
    ensures Items(value)[0] == text <==> WordAt(value, text, 0)
    ensures text <= Items(value)[0] <==> StartsAt(value, text, 0)
    decreases |value|
  {
    if text == [] {
    } else if value != [] {
      FirstLetter(value, text);
      NulFreeTail(text);
      FirstItem(value[1..], text[1..]);
      var rest := Items(value[1..]);
      if value[0] != 0 {
        var item := [value[0]] + rest[0];
        assert item[1..] == rest[0] && text == [text[0]] + text[1..];
        assert text <= item <==> text[0] == value[0] && text[1..] <= rest[0];
      }
    }
  }

  lemma {:induction false} LaterItems(value: bytes, text: bytes, i: nat)
    requires NulFree(text)
    ensures i > 0 && WordAt(value, text, i) ==> text in Items(value)[1..]
    ensures i > 0 && StartsAt(value, text, i) ==> exists item <- Items(value)[1..] :: text <= item
    decreases |value|
  {
    if value != [] && i > 0 && StartsAt(value, text, i) {
      var rest := Items(value[1..]);
      if value[0] == 0 {
        OneOn(value, text, i - 1);
        assert Items(value)[1..] == rest;
        if i == 1 {
          FirstItem(value[1..], text);
          assert rest[0] in rest;
        } else {
          LaterItems(value[1..], text, i - 1);
          assert forall item <- rest[1..] :: item in rest;
        }
      } else {
        assert i > 1;
        OneOn(value, text, i - 1);
        LaterItems(value[1..], text, i - 1);
        assert Items(value)[1..] == rest[1..];
      }
    }
  }

  /// Where an item stands.
  lemma {:induction false} ItemStands(value: bytes, k: nat) returns (i: nat)
    requires k < |Items(value)|
    ensures WordAt(value, Items(value)[k], i) && (k > 0 ==> i > 0)
    decreases |value|
  {
    ItemsNulFree(value);
    if value == [] {
      i := 0;
    } else if k == 0 {
      FirstItem(value, Items(value)[0]);
      i := 0;
    } else {
      var j := ItemStands(value[1..], if value[0] == 0 then k - 1 else k);
      OneOn(value, Items(value)[k], j);
      i := j + 1;
    }
  }

  lemma StartOfWord(value: bytes, word: bytes, i: nat, prefix: bytes)
    requires WordAt(value, word, i) && prefix <= word
    ensures StartsAt(value, prefix, i)
  {
    assert value[i..i + |prefix|] == value[i..i + |word|][..|prefix|];
  }

  /// `compatible` of `src/kexec.rs`: the strings are split at every NUL.
  lemma ItemMeaning(value: bytes, word: bytes)
    requires NulFree(word)
    ensures word in Items(value) <==> HasWord(value, word)
  {
    var items := Items(value);
    FirstItem(value, word);
    if HasWord(value, word) {
      var i: nat :| WordAt(value, word, i);
      LaterItems(value, word, i);
      assert items[0] in items && forall item <- items[1..] :: item in items;
    }
    if word in items {
      var k :| 0 <= k < |items| && items[k] == word;
      var i := ItemStands(value, k);
    }
  }

  lemma ItemStartMeaning(value: bytes, prefix: bytes)
    requires NulFree(prefix)
    ensures HasItemPrefix(Some(value), prefix) <==> HasStart(value, prefix)
  {
    var items := Items(value);
    FirstItem(value, prefix);
    if HasStart(value, prefix) {
      var i: nat :| StartsAt(value, prefix, i);
      LaterItems(value, prefix, i);
      assert items[0] in items && forall item <- items[1..] :: item in items;
    }
    if item :| item in items && prefix <= item {
      var k :| 0 <= k < |items| && items[k] == item;
      var i := ItemStands(value, k);
      StartOfWord(value, item, i, prefix);
    }
  }

  // The other stage looks at strings that end in a NUL only.

  predicate TextAt(value: bytes, text: bytes, i: nat) {
    StartsAt(value, text, i) && i + |text| < |value| && value[i + |text|] == 0
  }

  ghost predicate HasText(value: bytes, text: bytes) { exists i: nat :: TextAt(value, text, i) }

  lemma BehindNul(value: bytes, end: nat, text: bytes, i: nat)
    requires end < |value| && value[end] == 0
    ensures TextAt(value, text, end + 1 + i) <==> TextAt(value[end + 1..], text, i)
  {
    var n := end + 1;
    if n + i + |text| <= |value| {
      assert value[n..][i..i + |text|] == value[n + i..n + i + |text|];
    }
  }

  lemma TextInside(value: bytes, end: nat, text: bytes, i: nat)
    requires NulFree(text) && FindNul(value, 0) == Some(end) && TextAt(value, text, i)
    ensures i == 0 || i > end
    ensures i == 0 ==> text == value[..end]
  {
    if i == 0 {
      assert text == value[..|text|];
    }
  }

  lemma FrontText(value: bytes, end: nat, text: bytes)
    requires NulFree(text) && FindNul(value, 0) == Some(end)
    ensures HasText(value, text) <==> value[..end] == text || HasText(value[end + 1..], text)
  {
    hide FindNul;
    if HasText(value, text) {
      var i: nat :| TextAt(value, text, i);
      TextInside(value, end, text, i);
      if i > 0 {
        BehindNul(value, end, text, i - end - 1);
      }
    }
    if HasText(value[end + 1..], text) {
      var i: nat :| TextAt(value[end + 1..], text, i);
      BehindNul(value, end, text, i);
    }
    if value[..end] == text {
      assert TextAt(value, text, 0);
    }
  }

  lemma NoText(value: bytes, text: bytes)
    requires FindNul(value, 0).None?
    ensures !HasText(value, text)
  {
    hide FindNul;
  }

  /// `stringlist_contains` of `pocketpreboot/src/fdt.rs`.
  lemma {:induction false} ListMeaning(value: bytes, text: bytes)
    requires NulFree(text)
    ensures Msm8916.ListHas(value, text) <==> HasText(value, text)
    decreases |value|
  {
    hide HasText;
    var nul := FindNul(value, 0);
    if nul.Some? {
      ListMeaning(value[nul.value + 1..], text);
      FrontText(value, nul.value, text);
    } else {
      NoText(value, text);
    }
  }
}
