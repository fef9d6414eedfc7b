# php-dom-helper: class lists and child-list edits

This project models the static class `DomHelper` of php-dom-helper. The class offers two groups of helpers:

- **class-list helpers.** `classList` reads a node's `class` attribute as a lowercased list of tokens. `classListAdd` and `classListRemove` edit that list and write the attribute back.
- **tree helpers.** `removeNode`, `before` and `after` are thin wrappers around `removeChild` and `insertBefore`.

The model has five modules:

- `Wrappers`: an `Option` datatype.
- `Seqs`: the sequence operations the DOM calls perform on a child list.
  - `RemoveFirst` stands for `removeChild`.
  - `InsertBefore` and `InsertAfter` stand for `insertBefore`.
- `Text`: PHP's string functions as the helpers use them, on byte strings (one `char` per byte).
  - `strtolower` changes only `A`..`Z`.
  - `trim` removes its default characters: space, tab, line feed, carriage return, NUL and vertical tab.
  - `preg_split('/\s+/', …)` keeps the empty first and last pieces. PCRE's `\s` is space, tab, line feed, vertical tab, form feed and carriage return.
  - `implode(' ', …)`.
- `Classes`: the class-list algebra, on attribute values.
  - The attribute is an `Option<string>`; `None` means the node has no `class` attribute.
  - `Tokens` is `classList`.
  - `AddAll` and `RemoveAll` are the two `foreach` loops.
  - `Added` and `Removed` give the attribute each helper writes back.
- `DomHelper`: a `Node` class with three fields: the attribute, a parent link and the ordered child list.
  - The helper methods change these fields in place.
  - The class-list methods run their loops, and each loop invariant ties it to `AddAll` or `RemoveAll`.
  - `Before` and `After` first detach the moved node from its old parent, as `insertBefore` does. They then put it next to the reference node.

Main results:

- **Reading back what was written.**
  - `Split(Join(ts)) == ts` for every list of Split's shape.
  - `Join(Split(s))` is `s` with each whitespace run collapsed to one space.
- **`classListAdd`.**
  - It keeps the old list as a prefix.
  - It appends each new normalised class once, in the order the arguments first name it.
  - Applied twice, it writes the same attribute as applied once. This holds when every argument stays nonempty and free of whitespace after `strtolower(trim(…))`, and the attribute does not end in whitespace. With attribute `"a "` and argument `"b"`, the first call writes `"a  b"` and the second `"a b"`.
  - It creates an attribute even when given nothing to add.
- **`classListRemove`.**
  - Each argument removes exactly one copy of its normalised form.
  - The remaining classes keep their order.
  - After the write, a present attribute reads back as the list the loop left, or as one empty class when every class was removed.
  - Adding a fresh class and then removing any argument that normalises to it restores the class list. This holds under the same two conditions as the add round trip. Starting from no attribute, the round trip leaves an empty attribute, which reads as one empty class.
- **Tree edits.**
  - `before` and `after` place the node immediately in front of or behind the reference node.
  - They leave every other child in place.
  - They keep the parent and child links consistent.
  - `after` on a last child is an append.

## Model

| member | source | states |
|---|---|---|
| Text.Lower | src/DomHelper.php:112 | `strtolower` keeps the length and leaves no capital letter; `LowerFixed`, `LowerKeepsSpace` and `LowerTrim` pin it down further |
| Text.LowerFixed | src/DomHelper.php:112 | `strtolower` leaves a string unchanged exactly when it holds no capital letter |
| Text.Trim | src/DomHelper.php:139 | `trim` returns an infix of its input: everything cut away, at either end, is a trim character, and the result neither starts nor ends with one |
| Text.LowerTrim | src/DomHelper.php:139 | lowercasing and trimming commute, so `strtolower(trim(c))` is the same as `trim(strtolower(c))` |
| Text.Split | src/DomHelper.php:115 | `preg_split('/\s+/')` returns at least one token; no token contains whitespace; only the first and last tokens can be empty; for nonempty input, the first token is empty exactly when the input starts with whitespace; a single token is the whole input |
| Text.SplitLower | src/DomHelper.php:112-115 | splitting a lowercased string gives lowercase tokens |
| Text.SplitLast | src/DomHelper.php:115 | the last token is empty exactly when the input is empty or ends in whitespace |
| Text.JoinSplit | src/DomHelper.php:115 | joining the split tokens with single spaces gives the input with every whitespace run collapsed to one space (`Collapse`, defined character by character) |
| Text.SplitJoin | src/DomHelper.php:151 | splitting the `implode(' ', …)` of a list of Split's shape gives the list back |
| Text.Join | src/DomHelper.php:151 | `implode(' ', …)`; pinned down by `SplitJoin` and `JoinSplit`, which make it the inverse of `Split` on lists of Split's shape |
| Text.JoinLower | src/DomHelper.php:151 | joining lowercase tokens gives a lowercase string |
| Classes.Tokens | src/DomHelper.php:104-119 | `classList` is empty exactly when the node has no `class` attribute |
| Classes.TokensShape | src/DomHelper.php:112-118 | a present attribute reads as a list of Split's shape, which is never empty, with lowercase classes |
| Classes.TokensCollapse | src/DomHelper.php:112-118 | joining the class list gives the lowercased attribute with its whitespace runs collapsed |
| Classes.TokensEmptyAttribute | src/DomHelper.php:115 | an attribute that is present but empty reads as one empty class, not as no classes |
| Classes.TokensLast | src/DomHelper.php:115 | the last class is empty exactly when the attribute is empty or ends in whitespace |
| Classes.TokensOfJoin | src/DomHelper.php:151-152 | a list of Split's shape with lowercase classes, once written, reads back as itself |
| Classes.Normalize | src/DomHelper.php:139 | `strtolower(trim($class))`; pinned down by `NormalizeShape` |
| Classes.NormalizeShape | src/DomHelper.php:139 | a normalised argument is lowercase, has no trim character at either end, and equals `trim(strtolower(…))` |
| Classes.NormalizeCaseInsensitive | src/DomHelper.php:139 | arguments that differ only in letter case normalise to the same class |
| Classes.AddAll | src/DomHelper.php:137-148 | the add loop as a function of the old list and the arguments; `AddAllPrefix`, `AddAllFresh`, `AddAllNoDup` and `AddAllOrder` together determine it |
| Classes.AddAllPrefix | src/DomHelper.php:137-148 | the add loop keeps the old list as an unchanged prefix and ends with every normalised argument in the list |
| Classes.AddAllFresh | src/DomHelper.php:142-147 | each appended class is a normalised argument that was not in the old list |
| Classes.AddAllNoDup | src/DomHelper.php:142-147 | no class is appended twice |
| Classes.AddAllOrder | src/DomHelper.php:137-147 | appended classes come in the order in which the arguments first name them |
| Classes.AddAllPresent | src/DomHelper.php:142-144 | arguments whose classes are all present already leave the list unchanged |
| Classes.AddAllIdempotent | src/DomHelper.php:137-148 | running the add loop a second time with the same arguments changes nothing |
| Classes.PlainNormalized | src/DomHelper.php:139 | arguments that stay nonempty and whitespace-free after `strtolower(trim(…))` normalise to lowercase classes |
| Classes.AddAllWellSplit | src/DomHelper.php:134-151 | with such arguments and an attribute that does not end in whitespace, the built list has Split's shape and lowercase classes |
| Classes.Added | src/DomHelper.php:151-152 | `classListAdd` always writes the attribute |
| Classes.AddedTokens | src/DomHelper.php:131-153 | after `classListAdd`, the attribute reads back as the list the loop built; from no attribute and no arguments it reads back as one empty class |
| Classes.AddedIdempotent | src/DomHelper.php:131-153 | `classListAdd` applied twice with the same classes writes the same attribute as applied once |
| Classes.Removed | src/DomHelper.php:165-190 | `classListRemove` leaves an absent attribute absent and always writes a present one; what the written attribute reads back as is `RemovedTokens` |
| Classes.RemoveAll | src/DomHelper.php:176-185 | the remove loop as a function of the list and the arguments; pinned down by `RemoveOne`, `RemoveAllMultiset` and `RemoveAllIsSubseq` |
| Classes.RemoveOne | src/DomHelper.php:178-184 | one argument deletes the first occurrence of its normalised form, or nothing when it is absent |
| Classes.RemoveAllMultiset | src/DomHelper.php:176-185 | the remove loop deletes exactly one copy of each argument's normalised form that is present |
| Classes.RemoveAllIsSubseq | src/DomHelper.php:176-185 | the classes that remain keep their relative order |
| Classes.RemoveFirstShape | src/DomHelper.php:181-184 | removing one class from a lowercase list of Split's shape keeps that shape, unless nothing is left |
| Classes.RemoveAllShape | src/DomHelper.php:176-185 | the remove loop keeps a lowercase list of Split's shape in that shape, unless it removes every class |
| Classes.RemovedTokens | src/DomHelper.php:165-190 | after `classListRemove`, a present attribute reads back as the list the loop left, or as one empty class when none is left; an absent attribute still reads as no classes |
| Classes.RemoveLastClass | src/DomHelper.php:176-189 | removing the only class writes an empty attribute instead of deleting it |
| Classes.AddThenRemove | src/DomHelper.php:131-190 | adding a fresh class and then removing any argument that normalises to the same class (a case variant, or one with extra surrounding blanks) restores the class list; from no attribute it leaves an empty attribute |
| Classes.AddNothingCreatesAttribute | src/DomHelper.php:151-152 | `classListAdd` with no arguments on a node without the attribute creates an empty one |
| Classes.AddToEmptyAttribute | src/DomHelper.php:134-152 | adding a class to an empty attribute writes it after a leading space, because the empty class is kept |
| Seqs.IndexOf | src/DomHelper.php:181 | the position `array_search` finds holds the element, and no earlier position does |
| Seqs.RemoveFirst | src/DomHelper.php:93 | `removeChild`, and the `unset` of the key `array_search` found (:181-184); pinned down by `RemoveFirstAt` |
| Seqs.RemoveFirstAt | src/DomHelper.php:93 | removing cuts out exactly the first occurrence and leaves a sequence without it unchanged |
| Seqs.RemoveFirstMultiset | src/DomHelper.php:93 | removal takes exactly one copy of the element out of the contents |
| Seqs.RemoveFirstIsSubseq | src/DomHelper.php:93 | the remaining elements keep their order |
| Seqs.RemoveFirstNoDup | src/DomHelper.php:93 | a duplicate-free child list stays duplicate-free, and the removed child is gone |
| Seqs.RemoveFirstKeeps | src/DomHelper.php:93 | every other element is present after the removal exactly when it was before |
| Seqs.RemoveFirstAppended | src/DomHelper.php:147 | appending a fresh element and removing it restores the sequence |
| Seqs.InsertBefore | src/DomHelper.php:219 | `insertBefore($x, $y)` on a child list from which `x` is absent; pinned down by `InsertBeforeAt` |
| Seqs.InsertAfter | src/DomHelper.php:204 | `insertBefore($x, $y->nextSibling)` on such a list; pinned down by `InsertAfterAt` and `InsertAfterIsBeforeNext` |
| Seqs.InsertBeforeAt | src/DomHelper.php:219 | the inserted node takes the reference node's position directly in front of it, and the list grows by one |
| Seqs.InsertAfterAt | src/DomHelper.php:204 | the inserted node lands directly behind the reference node, and the list grows by one |
| Seqs.InsertAfterIsBeforeNext | src/DomHelper.php:204 | inserting after `y` is inserting before `y`'s next sibling, or appending when `y` is the last child (`nextSibling` null) |
| Seqs.InsertMultiset | src/DomHelper.php:204-219 | insertion adds exactly the inserted node to the contents |
| Seqs.InsertKeeps | src/DomHelper.php:204-219 | every other node is present after the insertion exactly when it was before |
| Seqs.InsertNoDup | src/DomHelper.php:204-219 | inserting a node that is not already a child keeps the children distinct |
| Seqs.InsertThenRemove | src/DomHelper.php:93-219 | removing a freshly inserted node undoes the insertion |
| DomHelper.ClassList | src/DomHelper.php:104-119 | the node's class list is empty exactly when it has no class attribute; otherwise it has Split's shape |
| DomHelper.ClassListAdd | src/DomHelper.php:131-153 | the loop builds the list `AddAll` specifies, and the node's attribute becomes `Added` of the old one |
| DomHelper.ClassListRemove | src/DomHelper.php:165-190 | returns without writing when the node has no attribute; otherwise the loop builds `RemoveAll`'s list and the attribute becomes `Removed` of the old one |
| DomHelper.RemoveNode | src/DomHelper.php:91-94 | the node loses its parent; the parent's child list loses its first occurrence of the node; a consistently linked parent stays so without the node |
| DomHelper.InsertedLinked | src/DomHelper.php:204-219 | putting a node that is not a child next to a child keeps the parent's links consistent |
| DomHelper.Before | src/DomHelper.php:217-220 | the node is detached from its old parent and inserted directly in front of the reference node; both parents' lists are stated in full, and consistent links stay consistent |
| DomHelper.After | src/DomHelper.php:202-205 | the node is detached from its old parent and inserted directly behind the reference node (appended when the reference is last); both parents' lists are stated in full, and consistent links stay consistent |

## Left out

- `loadHtml`, `querySelectorAll` and `initXpath` are not modelled. They hand HTML parsing and XPath evaluation to libxml, and no part of that is visible here.
- `src/DOMDocumentDecorator.php` is not part of this model: it forwards calls to a wrapped `DOMDocument`.
- Classes.AddAll: uses strict string equality where `in_array` compares loosely. Under PHP 8's `==`, two numeric strings such as `"1"` and `"01"` are equal, so the source treats them as the same class and the model does not.
- Classes.RemoveAll: uses strict string equality where `array_search` compares loosely, for the same reason.
- Classes.AddedTokens: the round trip is stated only for arguments that stay nonempty and whitespace-free after normalisation, and for attributes that do not end in whitespace. Outside these cases the source writes attributes that do not read back as the list it built. For example, an argument `"a b"` reads back as two classes, and a trailing space reads back as an extra empty class.
- Classes.AddedIdempotent: stated under the same two conditions as `AddedTokens`.
- Classes.AddThenRemove: stated under the same two conditions, and only for a class that was not already present. Without the first condition the added argument can read back as several classes. Without the second a trailing space reads back as an extra empty class, and that class survives the removal.
- Multi-byte and locale-dependent text is out of scope. A `char` stands for one byte, and `strtolower` is the ASCII mapping PHP 8.2 and later uses for every locale.
- DomHelper.Before: requires `x != y`. What libxml does with `insertBefore(y, y)` is not visible here.
- DomHelper.After: requires `x != y`, for the same reason.
- DomHelper.Before: requires `x` not to be `y`'s parent, which stands for the DOM's hierarchy error. Deeper ancestors, nodes of another document and node kinds that cannot be children are not modelled.
- DomHelper.After: the same restriction and omissions as `Before`.
- DomHelper.After: when `x` already is `y`'s next sibling, the source calls `insertBefore(x, x)`. The model's result leaves the list unchanged, which is what the DOM standard prescribes, but libxml's handling of that call is not visible here.
- DomHelper.Before: link consistency (`Linked`) is promised only for parents that were consistently linked before the call, because the tree's global well-formedness is not modelled.
- DomHelper.After: the same condition on link consistency as `Before`.
- DomHelper.RemoveNode: requires the node to have a parent. The source calls `removeChild` on a null `parentNode` in that case, which is a fatal error, and the model leaves that error out.
- DomHelper.Before: requires `y` to have a parent, for the same reason.
- DomHelper.After: requires `y` to have a parent, for the same reason.
- Attributes other than `class` are not modelled, and neither are any other node properties or the order of attributes.
