/** The string-list codec of `curl_setopt()` and `curl_getinfo()`: one NUL after every element,
    so that an empty list and a list of one empty string stay apart. */
module CurlList {
  import opened Wrappers

  const NUL: char := '\0'

  datatype Error = NotAListOfStrings

  function Encode(items: seq<string>): string {
    if items == [] then "" else items[0] + [NUL] + Encode(items[1..])
  }

  /** PHP's `explode("\0", text)`. */
  function Explode(text: string): (r: seq<string>)
    ensures |r| == 1 + NulCount(text)
  {
    if text == "" then [""]
    else if text[0] == NUL then [""] + Explode(text[1..])
    else
      var rest := Explode(text[1..]);
      [[text[0]] + rest[0]] + rest[1..]
  }

  function NulCount(text: string): nat {
    if text == "" then 0 else (if text[0] == NUL then 1 else 0) + NulCount(text[1..])
  }

  /** The reading side: the final NUL is cut off before the text is split. */
  function Decode(blob: string): seq<string> {
    if blob == "" then [] else Explode(blob[..|blob| - 1])
  }

  /** The writing side, element by element; `None` stands for an array, an object or null. */
  method EncodeItems(items: seq<Option<string>>) returns (r: Result<string, Error>)
    ensures r.Ok? <==> forall i | 0 <= i < |items| :: items[i].Some?
    ensures r.Ok? ==> r.value == Encode(seq(|items|, i requires 0 <= i < |items| && items[i].Some? => items[i].value))
  {
    var blob := "";
    ghost var done: seq<string> := [];
    for i := 0 to |items|
      invariant |done| == i && blob == Encode(done)
      invariant forall j | 0 <= j < i :: items[j] == Some(done[j])
    {
      if items[i].None? {
        return Err(NotAListOfStrings);
      }
      EncodeSnoc(done, items[i].value);
      blob := blob + items[i].value + [NUL];
      done := done + [items[i].value];
    }
    assert done == seq(|items|, i requires 0 <= i < |items| && items[i].Some? => items[i].value);
    return Ok(blob);
  }

  lemma {:induction false} EncodeSnoc(items: seq<string>, last: string)
    ensures Encode(items + [last]) == Encode(items) + last + [NUL]
  {
    if items == [] {
      assert items + [last] == [last];
      assert Encode([last][1..]) == "";
    } else {
      assert (items + [last])[1..] == items[1..] + [last];
      EncodeSnoc(items[1..], last);
    }
  }

  lemma {:induction false} NulCountConcat(a: string, b: string)
    ensures NulCount(a + b) == NulCount(a) + NulCount(b)
  {
    if a == "" {
      assert a + b == b;
    } else {
      assert (a + b)[1..] == a[1..] + b;
      NulCountConcat(a[1..], b);
    }
  }

  lemma {:induction false} NulCountZero(text: string)
    ensures NulCount(text) == 0 <==> NUL !in text
  {
    if text != "" {
      NulCountZero(text[1..]);
      assert text == [text[0]] + text[1..];
    }
  }

  function NulsWithin(items: seq<string>): nat {
    if items == [] then 0 else NulCount(items[0]) + NulsWithin(items[1..])
  }

  lemma {:induction false} EncodedNuls(items: seq<string>)
    ensures NulCount(Encode(items)) == |items| + NulsWithin(items)
  {
    if items != [] {
      EncodedNuls(items[1..]);
      NulCountConcat(items[0] + [NUL], Encode(items[1..]));
      NulCountConcat(items[0], [NUL]);
    }
  }

  lemma {:induction false} EncodedEndsInNul(items: seq<string>)
    requires items != []
    ensures Encode(items) != "" && Encode(items)[|Encode(items)| - 1] == NUL
  {
    if |items| > 1 {
      EncodedEndsInNul(items[1..]);
    }
  }

  lemma {:induction false} NulsWithinZero(items: seq<string>)
    ensures NulsWithin(items) == 0 <==> forall i | 0 <= i < |items| :: NUL !in items[i]
  {
    if items != [] {
      NulsWithinZero(items[1..]);
      NulCountZero(items[0]);
      assert forall i | 1 <= i < |items| :: items[i] == items[1..][i - 1];
    }
  }

  lemma {:induction false} ExplodeFirst(item: string, rest: string)
    requires NUL !in item
    ensures Explode(item + [NUL] + rest) == [item] + Explode(rest)
  {
    if item == "" {
      assert item + [NUL] + rest == [NUL] + rest;
    } else {
      assert (item + [NUL] + rest)[1..] == item[1..] + [NUL] + rest;
      ExplodeFirst(item[1..], rest);
      assert item == [item[0]] + item[1..];
    }
  }

  lemma {:induction false} ExplodeWhole(item: string)
    requires NUL !in item
    ensures Explode(item) == [item]
  {
    if item != "" {
      ExplodeWhole(item[1..]);
      assert item == [item[0]] + item[1..];
      assert item[0] in item;
    }
  }

  lemma {:induction false} DecodeInverts(items: seq<string>)
    requires forall i | 0 <= i < |items| :: NUL !in items[i]
    ensures Decode(Encode(items)) == items
  {
    if |items| == 1 {
      assert Encode(items[1..]) == "";
      assert Encode(items)[..|Encode(items)| - 1] == items[0];
      ExplodeWhole(items[0]);
    } else if |items| > 1 {
      var rest := Encode(items[1..]);
      EncodedEndsInNul(items[1..]);
      DecodeInverts(items[1..]);
      assert Encode(items)[..|Encode(items)| - 1] == items[0] + [NUL] + rest[..|rest| - 1];
      ExplodeFirst(items[0], rest[..|rest| - 1]);
    }
  }

  /** Reading back what was written gives the same list exactly when no element holds a NUL. */
  lemma RoundTripExactly(items: seq<string>)
    ensures Decode(Encode(items)) == items <==> forall i | 0 <= i < |items| :: NUL !in items[i]
  {
    NulsWithinZero(items);
    if Decode(Encode(items)) == items && items != [] {
      var blob := Encode(items);
      EncodedNuls(items);
      EncodedEndsInNul(items);
      NulCountConcat(blob[..|blob| - 1], [NUL]);
      assert blob == blob[..|blob| - 1] + [NUL];
    } else if forall i | 0 <= i < |items| :: NUL !in items[i] {
      DecodeInverts(items);
    }
  }
}
