# XMPPHP_XMLObj in Dafny

This project models the XML element object that XMPPHP uses for every stanza
it sends or receives (class `XMPPHP_XMLObj` in `XMPPHP/XMLObj.php`), and
proves what its operations promise.

An element has:

- a lower-cased tag `name`;
- a namespace `ns`;
- an ordered attribute array `attrs`, whose keys are lower-cased;
- ordered children `subs`;
- inline text `data`.

The model covers:

- the constructor and its normalisation;
- the three child queries `hasSub`, `sub` and `getSubs`;
- the attribute filter `hasAttrs`;
- the serialiser `toString`, together with the `htmlspecialchars` escaping it applies to attribute values and text.

Modules:

- `Wrappers`: `Option`, which stands for PHP's `null` and for `getSubs`' `false`.
- `Strings`:
  - ASCII `strtolower` (`Lower`);
  - `htmlspecialchars` (`Escape`) and its decoder (`Unescape`);
  - character counting.
- `Attributes`: a PHP ordered array of string pairs.
  - `Put` is `$a[$k] = $v`: a present key keeps its position, a new key is appended.
  - `Normalize` is the constructor's attribute loop.
- `XmlObj`: the `Node` datatype, construction, appending a child, and the three queries plus `hasAttrs`.
- `XmlText`: `toString` written the way the PHP builds it with `.=`, plus a compositional reference form `Markup` and the lemmas connecting the two.
- `XmlRead`: a reader for exactly the text `toString` writes. It is not part of the PHP. It exists so that "the serialiser loses nothing" can be stated as a round trip.

How PHP values are represented:

- The PHP filters compare with `==`. So `$ns == null` holds for a missing namespace argument and also for `''`. Likewise `$attrs == null` holds for a missing argument and also for an empty array.
- A namespace argument is `Option<string>`, and an attribute filter is `Option<Attrs>`.
- An attribute that the node lacks reads as `null`. `null != $value` is false only for `$value == ''`.

## Model

| member | source | states |
|---|---|---|
| Strings.Lower | XMPPHP/XMLObj.php:87 | strtolower on ASCII: length kept, every upper-case letter replaced by its lower-case letter (code point + 32), every other character kept, no upper-case letter left |
| Strings.LowerIdempotent | XMPPHP/XMLObj.php:87 | lower-casing an already lower-cased name changes nothing |
| Strings.Escape | XMPPHP/XMLObj.php:126 | escaped text never gets shorter and contains no raw `"`, `'`, `<` or `>` |
| Strings.EscapeConcat | XMPPHP/XMLObj.php:137 | escaping works character by character: the escape of a concatenation is the concatenation of the escapes |
| Strings.EscapeIdentityIff | XMPPHP/XMLObj.php:137 | escaping leaves a text unchanged if and only if it contains none of `&`, `"`, `'`, `<`, `>` |
| Strings.EscapeDoubleEncodes | XMPPHP/XMLObj.php:137 | escaping is not idempotent: `&` becomes `&amp;` and then `&amp;amp;` |
| Strings.UnescapeEscape | XMPPHP/XMLObj.php:126 | decoding the escaped text gives back the original text, for every text |
| Strings.EscapeInjective | XMPPHP/XMLObj.php:137 | two texts with the same escape are equal |
| Attributes.Lookup | XMPPHP/XMLObj.php:200 | reading `$a[$k]` yields nothing exactly when no pair has key k, and otherwise a value stored under k |
| Attributes.LookupUnique | XMPPHP/XMLObj.php:200 | when keys are distinct, reading the key of any pair yields exactly that pair's value |
| Attributes.PutKeys | XMPPHP/XMLObj.php:93 | `$a[$k] = $v` keeps the key order when k is present and appends k when it is new |
| Attributes.PutLookup | XMPPHP/XMLObj.php:93 | after `$a[$k] = $v`, k reads v and every other key reads what it read before |
| Attributes.NormalizeKeys | XMPPHP/XMLObj.php:92-94 | the stored keys are exactly the lower-cased given keys |
| Attributes.NormalizeLastValueWins | XMPPHP/XMLObj.php:92-94 | a stored key holds the value of the last given pair whose key lower-cases to it, and nothing else |
| Attributes.NormalizeKeyOrder | XMPPHP/XMLObj.php:92-94 | stored keys are ordered by the first given key that lower-cases to each, so a colliding later key keeps the first key's position |
| XmlObj.Construct | XMPPHP/XMLObj.php:85-98 | lower-cased name, namespace and data as given, no children, keys exactly the lower-cased given keys with the last value winning, and every node normalised |
| XmlObj.AppendSub | XMPPHP/XMLObj.php:68 | appending to the public `subs` array adds the child at the end, changes nothing else and keeps the tree normalised |
| XmlObj.HasAttrs | XMPPHP/XMLObj.php:197-206 | true if and only if every probe pair holds: the node's value at the lower-cased key equals the probe value, and a missing key matches only `''` |
| XmlObj.HasAttrsEmpty | XMPPHP/XMLObj.php:197-206 | the empty probe is satisfied by every node |
| XmlObj.HasAttrsConcat | XMPPHP/XMLObj.php:199-203 | a probe holds if and only if both of its parts hold, so the order of the pairs does not matter |
| XmlObj.HasAttrsMissingKey | XMPPHP/XMLObj.php:200 | a key the node lacks matches the value `''` and no other |
| XmlObj.HasAttrsProbeCase | XMPPHP/XMLObj.php:200 | the probe key is lower-cased before lookup, so its case never matters |
| XmlObj.ConstructHasOwnAttrs | XMPPHP/XMLObj.php:197-206 | a node built from attributes with distinct lower-cased keys satisfies those attributes as a probe |
| XmlObj.HasSub | XMPPHP/XMLObj.php:149-158 | true if and only if some direct child has the name (or the name is `*`) and passes the namespace filter |
| XmlObj.HasSubAnyIffChildren | XMPPHP/XMLObj.php:152 | with the namespace filter off (null or `''`), `hasSub('*')` holds exactly when there is a child |
| XmlObj.HasSubUpperProbe | XMPPHP/XMLObj.php:152 | in a tree whose names are lower-cased, as construction makes them, a probe name with an upper-case letter never matches |
| XmlObj.HasSubShallow | XMPPHP/XMLObj.php:151-155 | the answer depends only on the children's names and namespaces: grandchildren, attributes and text are never examined |
| XmlObj.HasSubAfterAppend | XMPPHP/XMLObj.php:149-158 | after appending a child, hasSub holds if and only if it held before or the new child matches |
| XmlObj.Sub | XMPPHP/XMLObj.php:167-175 | None exactly when no child has the name and passes the namespace filter; otherwise the first such child in order |
| XmlObj.SubIgnoresAttrs | XMPPHP/XMLObj.php:167-171 | sub's result never depends on its attribute argument, whatever the two attribute filters are |
| XmlObj.SubAgreesWithHasSub | XMPPHP/XMLObj.php:171 | for a name other than `*`, sub finds a child exactly when hasSub holds; for `*`, only a child literally named `*` is found |
| XmlObj.SubAfterAppend | XMPPHP/XMLObj.php:170-173 | appending a child leaves an existing match unchanged and otherwise finds the new child only if it matches |
| XmlObj.MatchPositions | XMPPHP/XMLObj.php:182-192 | the strictly increasing positions of exactly the children that pass all three filters |
| XmlObj.CollectAll | XMPPHP/XMLObj.php:180-194 | the getSubs loop without stop_at_first collects the children at the matching positions, in order |
| XmlObj.CollectFirst | XMPPHP/XMLObj.php:186-190 | the loop with stop_at_first returns false when nothing matches, and otherwise a one-element array holding the first match |
| XmlObj.GetSubs | XMPPHP/XMLObj.php:178-195 | false (None) exactly when no child passes; otherwise the matching children in order, or just the first of them with stop_at_first |
| XmlObj.GetSubsAll | XMPPHP/XMLObj.php:178-195 | with every filter off, the result is all children in order, or false when there are none |
| XmlObj.GetSubsStopIsFirst | XMPPHP/XMLObj.php:186-190 | stop_at_first returns exactly the first element of the full result, and false when that is false |
| XmlObj.GetSubsFirstIsSub | XMPPHP/XMLObj.php:186-190 | for a name other than `*` and no attribute filter, stop_at_first returns exactly what sub returns, wrapped in an array |
| XmlObj.HasSubIffGetSubs | XMPPHP/XMLObj.php:184 | without an attribute filter, getSubs finds something exactly when hasSub holds |
| XmlObj.GetSubsAfterAppend | XMPPHP/XMLObj.php:182-192 | appending a child adds it at the end of the result when it matches and leaves the result unchanged otherwise |
| XmlText.AttrsOutAcc | XMPPHP/XMLObj.php:123-129 | the attribute loop appends the attribute text of the remaining pairs to whatever was accumulated |
| XmlText.SubsOutAcc | XMPPHP/XMLObj.php:133-135 | the children loop appends every remaining child's serialisation, in order, to the accumulated text |
| XmlText.ToStringShape | XMPPHP/XMLObj.php:119-141 | toString writes, after its argument, `<name xmlns="ns" `, then for each attribute not keyed `xmlns` `key="escaped value" `, then `>`, then the children in order, then the escaped data, then `</name>` |
| XmlText.ToStringPrefix | XMPPHP/XMLObj.php:119-121 | toString(p) is p followed by toString('') |
| XmlText.AttrTextSkipsXmlns | XMPPHP/XMLObj.php:125 | an attribute keyed `xmlns` contributes nothing to the output, wherever it sits |
| XmlText.MarkupBrackets | XMPPHP/XMLObj.php:119-141 | when names, namespaces and keys are free of `<` (or of `>`), the output holds exactly two of them per element: escaped values and text add none |
| XmlText.ExampleMessage | XMPPHP/XMLObj.php:119-141 | a chat message with an empty body child serialises as `<message xmlns="jabber:client" type="chat" ><body xmlns="" ></body>hi</message>` |
| XmlRead.ReadAttrText | XMPPHP/XMLObj.php:123-129 | for keys without `=` and not starting with `>`, the attribute text reads back as the attributes in order, without those keyed `xmlns`, with values decoded |
| XmlRead.ReadMarkup | XMPPHP/XMLObj.php:119-141 | a readable element's text, followed by anything, reads back as the element minus its `xmlns`-keyed attributes and leaves the rest untouched |
| XmlRead.ReadToString | XMPPHP/XMLObj.php:119-141 | for a tree whose names, namespaces and keys can be delimited, toString('') reads back as the tree minus the `xmlns`-keyed attributes |
| XmlRead.ToStringInjective | XMPPHP/XMLObj.php:119-141 | two such trees with the same text differ at most in their `xmlns`-keyed attributes |

## Left out

- `printObj` (`XMPPHP/XMLObj.php:105-112`) writes to standard output for debugging. The model has no I/O.
- The XML parser that builds trees and pushes children onto the public `subs` array is not part of this model. `XmlObj.AppendSub` stands in for its `subs[] =`.
- PHP's default parameter values are not modelled. Every argument is explicit, and null is `None`.
- The constructor ignores an `$attrs` argument that is not an array. That case is not modelled: attributes are always a sequence of pairs.
- PHP loose comparison on numeric strings is not modelled. For example, `"1" == "01"`, and an integer array key compared with `'xmlns'`. Names, namespaces, keys and values use plain string equality. The one loose rule that matters for strings, that null equals `''`, is modelled.
- PHP's integer array keys are not modelled. PHP turns an attribute key such as `"12"` into the integer 12. Keys stay strings here.
- `Strings.Lower` lower-cases ASCII letters only. That is `strtolower` from PHP 8.2 on. Locale-dependent and multibyte lower-casing is not modelled.
- `Strings.Escape` follows the PHP 8.1 defaults of `htmlspecialchars`: `ENT_QUOTES`, so `'` becomes `&#039;`, and double encoding. Earlier PHP versions leave `'` alone. Invalid UTF-8 handling (`ENT_SUBSTITUTE`) is not modelled, because strings are sequences of characters.
- `XmlObj.HasAttrs` takes its probe as a sequence of pairs, where PHP takes an array. A PHP array cannot repeat a key, so every PHP probe is one of the modelled sequences.
- `Strings.Unescape` and the `XmlRead` module are additions that serve as partners for proofs. The PHP has no reader of its own output.
- `XmlRead.ReadToString` requires element names without a space and not starting with `/`, namespaces without `"`, and attribute keys without `=` and not starting with `>`. The serialiser does not escape these parts, so a tree that breaks these rules cannot be read back unambiguously from its text.
- The constructor accepts an empty name, and so does the model.
- Object identity is not modelled: nodes are values. In PHP, `sub` and `getSubs` return the child objects themselves and `subs[] =` shares the handle, so a later change through any handle shows in the tree. The class is used as immutable once built, so no property here depends on this.
- `XmlObj.HasAttrs`: when the node lacks a probed key, PHP reads an undefined array key at `XMPPHP/XMLObj.php:200`. It raises an `Undefined array key` warning (an `Undefined index` notice before PHP 8), which an error handler that throws turns into an exception. The model reads `null` and models no diagnostic, because it has no error-handler state.
- `getSubs` appends to a collector that starts as `false`. PHP 8.1 deprecates that append, but it still yields an array, and the model does the same.
