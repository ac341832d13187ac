/** The parser of MCJSONParser.cpp: it moves `mPosition` over its content and leaves an object in `mResult`. */
module JsonParser {
  import opened Basics
  import opened JsonSyntax

  class JSONParser {
    var mContent: Text
    var mPosition: nat
    var mResult: Option<Object>

    constructor ()
      ensures mContent == [] && mPosition == 0 && mResult == None
    {
      mContent := [];
      mPosition := 0;
      mResult := None;
    }

    method SetContent(content: Text)
      modifies this
      ensures mContent == content && mPosition == old(mPosition) && mResult == old(mResult)
    {
      mContent := content;
    }

    method SetPosition(position: nat)
      modifies this
      ensures mPosition == position && mContent == old(mContent) && mResult == old(mResult)
    {
      mPosition := position;
    }

    /** The position and the result after a parse method that was to yield `r` from the position `start`. */
    twostate predicate Yields(r: Parsed<Object>, ok: bool, start: nat)
      reads this
    {
      && mContent == old(mContent)
      && ok == r.Some?
      && mPosition == (if ok then r.value.1 else start)
      && mResult == (if ok then Some(r.value.0) else old(mResult))
    }

    /** The position after the blanks at `position`. */
    method SkipBlanks(position: nat) returns (q: nat)
      ensures q == SkipBlank(mContent, position)
    {
      q := position;
      while true
        invariant SkipBlank(mContent, q) == SkipBlank(mContent, position)
        decreases |mContent| - q
      {
        if q >= |mContent| {
          break;
        }
        var ch := mContent[q];
        if ch == ' ' as int || ch == 0x09 || ch == 0x0D || ch == 0x0A {
          q := q + 1;
        } else {
          break;
        }
      }
    }

    method ParseBoolean() returns (ok: bool)
      modifies this
      ensures Yields(JsonSyntax.ParseBoolean(old(mContent), old(mPosition)), ok, old(mPosition))
    {
      if ScanKeyword(mContent, TRUE, mPosition) {
        mPosition := mPosition + |TRUE|;
        mResult := Some(Boolean(true));
        return true;
      }
      if ScanKeyword(mContent, FALSE, mPosition) {
        mPosition := mPosition + |FALSE|;
        mResult := Some(Boolean(false));
        return true;
      }
      return false;
    }

    method ParseNull() returns (ok: bool)
      modifies this
      ensures Yields(JsonSyntax.ParseNull(old(mContent), old(mPosition)), ok, old(mPosition))
    {
      if ScanKeyword(mContent, NULL, mPosition) {
        mPosition := mPosition + |NULL|;
        mResult := Some(Null);
        return true;
      }
      return false;
    }

    method ParseFloat() returns (ok: bool)
      requires mPosition <= |mContent|
      modifies this
      ensures Yields(JsonSyntax.ParseFloat(old(mContent), old(mPosition)), ok, old(mPosition))
    {
      var str :=
        if |mContent| > mPosition + WINDOW then mContent[mPosition..mPosition + WINDOW] else mContent[mPosition..];
      var end := DoubleEnd(str);
      if end == 0 {
        return false;
      }
      var (endInt, valueInt) := ReadLong(str);
      if end == endInt {
        mPosition := mPosition + endInt;
        mResult := Some(Integer(valueInt, LongLong));
      } else {
        mPosition := mPosition + end;
        mResult := Some(Double(str[..end]));
      }
      return true;
    }

    /** Up to three octal digits from `start` on. */
    method ReadOctal(start: nat) returns (value: UChar, position: nat)
      requires start < |mContent| && IsOctal(mContent[start])
      ensures (value, position) == OctalDigits(mContent, start + 1, 2, mContent[start] - '0' as int)
    {
      position := start;
      value := 0;
      var count, ch := 0, mContent[start];
      while IsOctal(ch)
        invariant count <= 2 && position < |mContent| && ch == mContent[position]
        invariant OctalDigits(mContent, position, 3 - count, value) == OctalDigits(mContent, start, 3, 0)
        decreases 3 - count
      {
        value := (value * 8 + HexToInt(ch)) % 0x1_0000;
        count := count + 1;
        position := position + 1;
        if count >= 3 || position >= |mContent| {
          break;
        }
        ch := mContent[position];
      }
    }

    /** Up to `limit` hexadecimal digits from `start` on. */
    method ReadHex(start: nat, limit: nat) returns (ok: bool, value: UChar, position: nat)
      ensures HexDigits(mContent, start, limit, 0) == if ok then Some((value, position)) else None
    {
      position := start;
      value := 0;
      var i := 0;
      while i < limit
        invariant i <= limit
        invariant HexDigits(mContent, position, limit - i, value) == HexDigits(mContent, start, limit, 0)
      {
        if position >= |mContent| {
          return false, value, position;
        }
        var digit := HexToInt(mContent[position]);
        if digit == -1 {
          break;
        }
        value := (value * 16 + digit) % 0x1_0000;
        position := position + 1;
        i := i + 1;
      }
      ok := true;
    }

    /** What follows a backslash, at `start`. */
    method ReadEscape(start: nat) returns (ok: bool, chars: Text, position: nat)
      ensures Escape(mContent, start) == if ok then Some((chars, position)) else None
    {
      ok, chars, position := true, [], start;
      if position >= |mContent| {
        return false, chars, position;
      }
      var ch := mContent[position];
      if IsOctal(ch) {
        var value: UChar;
        value, position := ReadOctal(position);
        chars := [value];
      } else if ch == 'u' as int || ch == 'x' as int {
        var value: UChar;
        ok, value, position := ReadHex(position + 1, if ch == 'u' as int then 4 else 2);
        chars := [value];
      } else {
        chars :=
          if ch == 'b' as int then [0x08]
          else if ch == 't' as int then [0x09]
          else if ch == 'n' as int then [0x0A]
          else if ch == 'r' as int then [0x0D]
          else if ch == 'f' as int then [0x0C]
          else if ch == 'v' as int then [0x0B]
          else if ch in [0x22, 0x27, 0x5C, 0x2F] then [ch]
          else [0x5C, ch];
        position := position + 1;
      }
    }

    /** The characters from `start` to the closing quote. */
    method ReadString(start: nat, doubleQuote: bool) returns (ok: bool, str: Text, position: nat)
      ensures StringRest(mContent, start, if doubleQuote then 0x22 else 0x27, []) ==
              if ok then Some((str, position)) else None
    {
      str, position := [], start;
      ghost var quote := if doubleQuote then 0x22 else 0x27;
      ghost var all := StringRest(mContent, start, quote, []);
      var endOfString := false;
      while !endOfString
        invariant all == if endOfString then Some((str, position)) else StringRest(mContent, position, quote, str)
        decreases |mContent| - position, !endOfString
      {
        if position >= |mContent| {
          return false, str, position;
        }
        var ch := mContent[position];
        if ch == 0x5C {
          var read, chars, next := ReadEscape(position + 1);
          if !read {
            return false, str, position;
          }
          str := str + chars;
          position := next;
        } else if (ch == 0x27 && !doubleQuote) || (ch == 0x22 && doubleQuote) {
          position := position + 1;
          endOfString := true;
        } else {
          str := str + [ch];
          position := position + 1;
        }
      }
      ok := true;
    }

    method ParseString() returns (ok: bool)
      modifies this
      ensures Yields(JsonSyntax.ParseString(old(mContent), old(mPosition)), ok, old(mPosition))
    {
      var doubleQuote, startString := false, false;
      if ScanCharacter(mContent, 0x22, mPosition) {
        doubleQuote := true;
        startString := true;
      } else if ScanCharacter(mContent, 0x27, mPosition) {
        startString := true;
      }
      if !startString {
        return false;
      }
      var str, position;
      ok, str, position := ReadString(mPosition + 1, doubleQuote);
      if ok {
        mResult := Some(String(str));
        mPosition := position;
      }
    }

    /** Another parser reads the value at `position`. */
    method ParseAt(position: nat) returns (ok: bool, value: Object, q: nat)
      requires position <= |mContent|
      ensures JsonSyntax.ParseValue(mContent, position) == if ok then Some((value, q)) else None
      decreases |mContent| - position, 3
    {
      var parser := new JSONParser();
      parser.SetContent(mContent);
      parser.SetPosition(position);
      ok := parser.Parse();
      value := if ok then parser.mResult.value else Null;
      q := parser.mPosition;
    }

    /** A comma and the blanks after it, or the character that closes the container. */
    method ReadSeparator(start: nat, close: UChar) returns (more: bool, closed: bool, position: nat)
      requires close != ',' as int
      ensures more == ScanCharacter(mContent, ',' as int, SkipBlank(mContent, start))
      ensures closed == ScanCharacter(mContent, close, SkipBlank(mContent, start))
      ensures more ==> position == SkipBlank(mContent, SkipBlank(mContent, start) + 1)
      ensures closed ==> position == SkipBlank(mContent, start) + 1
    {
      more, closed := false, false;
      position := SkipBlanks(start);
      if ScanCharacter(mContent, ',' as int, position) {
        position := position + 1;
        position := SkipBlanks(position);
        more := true;
      } else if ScanCharacter(mContent, close, position) {
        position := position + 1;
        closed := true;
      }
    }

    /** The elements from `start` to the closing bracket. */
    method ReadElements(start: nat) returns (ok: bool, elements: seq<Object>, position: nat)
      requires start <= |mContent|
      ensures ParseElements(mContent, start, []) == if ok then Some((Array(elements), position)) else None
      decreases |mContent| - start, 4
    {
      hide SkipBlank, ParseValue;
      elements, position := [], start;
      ghost var all := ParseElements(mContent, start, []);
      while true
        invariant start <= position <= |mContent|
        invariant all == ParseElements(mContent, position, elements)
        decreases |mContent| - position
      {
        if position >= |mContent| {
          return false, elements, position;
        }
        var read, value, next := ParseAt(position);
        if !read {
          return false, elements, position;
        }
        elements := elements + [value];
        var more, closed, after := ReadSeparator(next, ']' as int);
        if !more && !closed {
          return false, elements, position;
        }
        position := after;
        if closed {
          break;
        }
      }
      ok := true;
    }

    method ParseArray() returns (ok: bool)
      modifies this
      ensures Yields(JsonSyntax.ParseArray(old(mContent), old(mPosition)), ok, old(mPosition))
      decreases |mContent| - mPosition, 1
    {
      var position := mPosition;
      if !ScanCharacter(mContent, '[' as int, position) {
        return false;
      }
      position := position + 1;
      position := SkipBlanks(position);
      var elements: seq<Object> := [];
      if ScanCharacter(mContent, ']' as int, position) {
        position := position + 1;
      } else {
        ok, elements, position := ReadElements(position);
        if !ok {
          return;
        }
      }
      mResult := Some(Array(elements));
      mPosition := position;
      return true;
    }

    /** The key at `position`, with the position after the colon and its blanks. */
    method ReadKey(start: nat) returns (ok: bool, key: Text, position: nat)
      requires start <= |mContent|
      ensures ParseKey(mContent, start) == if ok then Some((key, position)) else None
      decreases |mContent| - start, 4
    {
      hide ParseValue, SkipBlank;
      key, position := [], start;
      var read, value, next := ParseAt(position);
      if !read {
        return false, key, position;
      }
      if !value.String? {
        return false, key, position;
      }
      key := value.chars;
      position := next;
      position := SkipBlanks(position);
      if !ScanCharacter(mContent, ':' as int, position) {
        return false, key, position;
      }
      position := position + 1;
      position := SkipBlanks(position);
      ok := true;
    }

    /** The members from `start` to the closing brace. */
    method ReadMembers(start: nat) returns (ok: bool, dict: map<Text, Object>, position: nat)
      requires start <= |mContent|
      ensures ParseMembers(mContent, start, map[]) == if ok then Some((Dictionary(dict), position)) else None
      decreases |mContent| - start, 6
    {
      hide SkipBlank, ParseMember;
      dict, position := map[], start;
      ghost var all := ParseMembers(mContent, start, map[]);
      while true
        invariant start <= position <= |mContent|
        invariant all == ParseMembers(mContent, position, dict)
        decreases |mContent| - position
      {
        if position >= |mContent| {
          return false, dict, position;
        }
        var read, key, value, next := ReadMember(position);
        if !read {
          return false, dict, position;
        }
        dict := dict[key := value];
        var more, closed, after := ReadSeparator(next, '}' as int);
        if !more && !closed {
          return false, dict, position;
        }
        position := after;
        if closed {
          break;
        }
      }
      ok := true;
    }

    method ReadMember(start: nat) returns (ok: bool, key: Text, value: Object, position: nat)
      requires start <= |mContent|
      ensures ParseMember(mContent, start) == if ok then Some(((key, value), position)) else None
      decreases |mContent| - start, 5
    {
      value := Null;
      ok, key, position := ReadKey(start);
      if ok {
        ok, value, position := ParseAt(position);
      }
    }

    method ParseDictionary() returns (ok: bool)
      modifies this
      ensures Yields(JsonSyntax.ParseDictionary(old(mContent), old(mPosition)), ok, old(mPosition))
      decreases |mContent| - mPosition, 1
    {
      var position := mPosition;
      if !ScanCharacter(mContent, '{' as int, position) {
        return false;
      }
      position := position + 1;
      position := SkipBlanks(position);
      var dict: map<Text, Object> := map[];
      if ScanCharacter(mContent, '}' as int, position) {
        position := position + 1;
      } else {
        ok, dict, position := ReadMembers(position);
        if !ok {
          return;
        }
      }
      mResult := Some(Dictionary(dict));
      mPosition := position;
      return true;
    }

    method Parse() returns (ok: bool)
      requires mPosition <= |mContent|
      modifies this
      ensures Yields(ParseValue(old(mContent), old(mPosition)), ok, SkipBlank(old(mContent), old(mPosition)))
      decreases |mContent| - mPosition, 2
    {
      mPosition := SkipBlanks(mPosition);
      ok := ParseDictionary();
      if !ok {
        ok := ParseArray();
      }
      if !ok {
        ok := ParseBoolean();
      }
      if !ok {
        ok := ParseNull();
      }
      if !ok {
        ok := ParseFloat();
      }
      if !ok {
        ok := ParseString();
      }
    }
  }
}
