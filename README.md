# ff4j expression parser in Dafny

ff4j's `ExpressionStrategy` decides whether a feature is on from a boolean
expression over feature names, such as `(A|B)&!C`. `ExpressionParser` turns that
text into a tree of `ExpressionNode` objects. An operator node is `OR` (`|`) or
`AND` (`&`) over any number of sub-nodes, or a `NOT` (`!`) over one sub-node. A
"sheet" is a leaf that carries a feature name. This project models the parser
and proves what tree it builds.

There are two layers.

* Reference functions describe the tree the parser builds. Each function has
  lemmas that say what that tree is.
  * `Brackets` covers the scan for the first bracketed group.
  * `Precedence` covers text without brackets: OR binds loosest, then AND, and
    NOT applies only to the operand it starts.
  * `Escaping` covers how group texts are escaped and restored.
  * `Substitution` covers how the `P<n>` placeholders are replaced by stored
    sub-trees.
  * `ParserSpec` covers the whole of `parseExpression`: the extraction loop and
    the recursion into each group.
* `ExpressionParser` holds the Java methods as imperative Dafny methods. They
  build `ExpressionNode` objects (a class in `ExpressionNodes`) by adding to and
  removing from their sub-node lists. Each method's postcondition ties the
  `model` of the node it returns to the reference function.

A Java runtime exception becomes a `Failure` result (`JavaExceptions.Fault`):
* The bracket scan raises `ArrayIndexOutOfBounds` when an opening bracket has
  no matching close.
* `processSubstitution` raises `IndexOutOfBounds` when it meets a child with
  neither a non-empty value nor a sub-node (on the trees the parser builds, an
  empty sheet) and asks that child for its first sub-node.

Java's `String` and `List` operations that the parser uses are defined in
`JavaStrings` and `JavaLists`:
* `replaceAll` with a literal pattern;
* `split` on one character, which drops trailing empty strings;
* `indexOf`;
* `List.remove`.

## Model

| member | source | states |
|---|---|---|
| Brackets.Bracket | ff4j-core/src/main/java/org/ff4j/feature/togglestrategy/expression/ExpressionParser.java:116-138 | the group the scan computes, as an ExpressionBracket (the datatype standing for the class at lines 69-107, with the same two fields): its offset lies past the first `(` and within the text, the character before it is `)`, and its text is exactly what lies between the two brackets |
| ExpressionParser.ExtractExprWithinParenthesis | ff4j-core/src/main/java/org/ff4j/feature/togglestrategy/expression/ExpressionParser.java:116-138 | the scan succeeds exactly when the first `(` has a matching `)`; it then returns the reference group, and otherwise fails with ArrayIndexOutOfBounds |
| Brackets.MatchingCloseExists | ff4j-core/src/main/java/org/ff4j/feature/togglestrategy/expression/ExpressionParser.java:119-133 | the scan finds a close exactly when some `)` after the first `(` closes a balanced stretch of text |
| Brackets.BracketBalanced | ff4j-core/src/main/java/org/ff4j/feature/togglestrategy/expression/ExpressionParser.java:122-136 | the text the scan extracts has balanced brackets |
| Brackets.BracketFirstClose | ff4j-core/src/main/java/org/ff4j/feature/togglestrategy/expression/ExpressionParser.java:122-133 | every `)` before the one the scan stops at is nested strictly inside the group, so the scan stops at the first `)` that closes the opening `(` |
| Brackets.MatchingClose | ff4j-core/src/main/java/org/ff4j/feature/togglestrategy/expression/ExpressionParser.java:122-133 | a close the scan reports lies in the text, at or after its start, on a `)` |
| ExpressionParser.ParseExpression | ff4j-core/src/main/java/org/ff4j/feature/togglestrategy/expression/ExpressionParser.java:146-205 | parsing fails exactly when the reference parse fails, with the same exception; on success it returns a valid node whose tree is the reference parse |
| ParserSpec.ParsedIgnoresSpaces | ff4j-core/src/main/java/org/ff4j/feature/togglestrategy/expression/ExpressionParser.java:148 | spaces anywhere in the input do not change the parse |
| ParserSpec.ParsedWithoutBrackets | ff4j-core/src/main/java/org/ff4j/feature/togglestrategy/expression/ExpressionParser.java:148-153 | input with no `(` once spaces are removed parses, without failing, to the precedence tree of that text |
| ParserSpec.ParsedRendersBack | ff4j-core/src/main/java/org/ff4j/feature/togglestrategy/expression/ExpressionParser.java:148-153 | for input that, with spaces removed, has no `(`, does not end in `\|` or `&` and has no `&` directly before `\|`, rendering the parse gives back the input without its spaces |
| ExpressionParser.ExtractGroups | ff4j-core/src/main/java/org/ff4j/feature/togglestrategy/expression/ExpressionParser.java:155-180 | the extraction loop fails exactly when the reference extraction fails, with the same exception; otherwise it returns the reference residue, text map and (as valid stored nodes) tree map |
| ParserSpec.ExtractedEnds | ff4j-core/src/main/java/org/ff4j/feature/togglestrategy/expression/ExpressionParser.java:161-180 | after the loop no `(` is left, spaces do not come back, and the counter has advanced once per top-level group |
| ParserSpec.ExtractedKeys | ff4j-core/src/main/java/org/ff4j/feature/togglestrategy/expression/ExpressionParser.java:166-170 | the keys stored are exactly the earlier keys plus `P<idx>` for each group extracted |
| ParserSpec.ExtractedNodes | ff4j-core/src/main/java/org/ff4j/feature/togglestrategy/expression/ExpressionParser.java:169-170 | the key `P<idx+j>` holds the parse of the j-th top-level group |
| ParserSpec.ExtractedTexts | ff4j-core/src/main/java/org/ff4j/feature/togglestrategy/expression/ExpressionParser.java:166 | the key `P<idx+j>` holds the escaped text of the j-th top-level group |
| ParserSpec.FirstKeyKept | ff4j-core/src/main/java/org/ff4j/feature/togglestrategy/expression/ExpressionParser.java:166-170 | an entry stored under a key that later rounds never name survives to the end of the loop |
| ParserSpec.ExtractedStep | ff4j-core/src/main/java/org/ff4j/feature/togglestrategy/expression/ExpressionParser.java:161-179 | a successful extraction that still sees a `(` has a matching close, parses that group and continues from the round's new state |
| ParserSpec.GroupsBalanced | ff4j-core/src/main/java/org/ff4j/feature/togglestrategy/expression/ExpressionParser.java:161-179 | every group the loop extracts has balanced brackets and is shorter than the text it came from |
| ParserSpec.ShiftGroups | ff4j-core/src/main/java/org/ff4j/feature/togglestrategy/expression/ExpressionParser.java:172-178 | the groups of a text are its first bracketed group followed by the groups of what is left after it |
| ParserSpec.KeyInjective | ff4j-core/src/main/java/org/ff4j/feature/togglestrategy/expression/ExpressionParser.java:166-170 | distinct counter values give distinct keys `"P" + idx`, so no round overwrites another's entry |
| ParserSpec.DecimalInjective | ff4j-core/src/main/java/org/ff4j/feature/togglestrategy/expression/ExpressionParser.java:166 | the decimal text of a counter value determines the value |
| ExpressionParser.RewriteGroups | ff4j-core/src/main/java/org/ff4j/feature/togglestrategy/expression/ExpressionParser.java:185-189 | the rewrite over the text map, in any order, leaves text with no `(` unchanged |
| Escaping.EscapeRoundTrip | ff4j-core/src/main/java/org/ff4j/feature/togglestrategy/expression/ExpressionParser.java:184-192 | escaping `\|` and `&` as words and restoring them gives back any space-free text in which no `\|` comes right before the letters `AND` |
| Escaping.OrBeforeAndWordLost | ff4j-core/src/main/java/org/ff4j/feature/togglestrategy/expression/ExpressionParser.java:184-192 | without that condition the round trip can lose text: `\|AND\|` comes back as `OR&OR` |
| Escaping.EscapeKeepsOut | ff4j-core/src/main/java/org/ff4j/feature/togglestrategy/expression/ExpressionParser.java:184 | escaping adds no character other than those of ` OR ` and ` AND `, so the escaped residue still has no `(` |
| Escaping.EscapeIsEscaped | ff4j-core/src/main/java/org/ff4j/feature/togglestrategy/expression/ExpressionParser.java:166 | the two chained replacements together rewrite each `\|` and `&` on its own, character by character |
| Escaping.UndoFirst | ff4j-core/src/main/java/org/ff4j/feature/togglestrategy/expression/ExpressionParser.java:192 | replacing ` OR ` by `\|` undoes the first escaping pass on space-free text |
| Escaping.UndoSecond | ff4j-core/src/main/java/org/ff4j/feature/togglestrategy/expression/ExpressionParser.java:192 | on space-free text, replacing ` AND ` by `&` undoes the second escaping pass unless a `\|` precedes the letters `AND` |
| ExpressionParser.SubstituteAll | ff4j-core/src/main/java/org/ff4j/feature/togglestrategy/expression/ExpressionParser.java:197-204 | the substitution loop fails exactly when the reference substitution crashes, with IndexOutOfBounds; otherwise it returns a valid node whose tree is the reference substitution |
| ExpressionParser.SubstituteChild | ff4j-core/src/main/java/org/ff4j/feature/togglestrategy/expression/ExpressionParser.java:200-202 | one loop round keeps the loop's bookkeeping: the children kept so far, then those not yet visited, then the replacements so far |
| ExpressionParser.ProcessSubstitution | ff4j-core/src/main/java/org/ff4j/feature/togglestrategy/expression/ExpressionParser.java:217-237 | a child with a non-empty value that is a stored key is removed from the new node and the stored tree appended; any other child with a first sub-node whose value is a stored key is removed and a NOT over that stored tree appended, whatever the child's operator (an AND whose first operand is a key loses its other operands); other children leave the node as it was; a child with no non-empty value and no sub-node fails with IndexOutOfBounds |
| ExpressionParser.FindReplacement | ff4j-core/src/main/java/org/ff4j/feature/togglestrategy/expression/ExpressionParser.java:219-233 | finds the replacement for a child as the reference classification says: none, the stored node, or a new NOT over it, or the crash |
| ExpressionParser.NewNotNode | ff4j-core/src/main/java/org/ff4j/feature/togglestrategy/expression/ExpressionParser.java:230-231 | a fresh NOT node whose only sub-node is the stored node |
| Substitution.Substituted | ff4j-core/src/main/java/org/ff4j/feature/togglestrategy/expression/ExpressionParser.java:197-204 | the substituted tree keeps the root's operator and has no value; it fails, with IndexOutOfBounds, exactly when some child crashes the substitution |
| Substitution.KeptSound | ff4j-core/src/main/java/org/ff4j/feature/togglestrategy/expression/ExpressionParser.java:219-235 | every child that stays was an original child classified as kept: its non-empty value is no stored key, or, without one, its first sub-node's value is no stored key |
| Substitution.KeptComplete | ff4j-core/src/main/java/org/ff4j/feature/togglestrategy/expression/ExpressionParser.java:219-235 | every original child classified as kept (its non-empty value is no stored key, or, without one, its first sub-node's value is no stored key) stays |
| Substitution.AppendedSound | ff4j-core/src/main/java/org/ff4j/feature/togglestrategy/expression/ExpressionParser.java:220-233 | every appended tree is the replacement of some original child |
| Substitution.AppendedComplete | ff4j-core/src/main/java/org/ff4j/feature/togglestrategy/expression/ExpressionParser.java:220-233 | the replacement of every child that names a stored key is appended |
| Substitution.SubstitutionCount | ff4j-core/src/main/java/org/ff4j/feature/togglestrategy/expression/ExpressionParser.java:199-235 | without a crash, the new node has exactly as many children as the old one |
| Substitution.NothingToSubstitute | ff4j-core/src/main/java/org/ff4j/feature/togglestrategy/expression/ExpressionParser.java:199-235 | when every child is kept (no child names a key and none crashes), the children are copied unchanged and in order |
| Substitution.SubstitutionSplits | ff4j-core/src/main/java/org/ff4j/feature/togglestrategy/expression/ExpressionParser.java:200-202 | the children are handled one at a time: the kept and appended lists of two runs of children concatenate |
| Substitution.SubstitutionStep | ff4j-core/src/main/java/org/ff4j/feature/togglestrategy/expression/ExpressionParser.java:200-202 | visiting the next child adds it to the kept list, adds its replacement to the appended list, or crashes, as its classification says |
| Substitution.FlatChildCrashes | ff4j-core/src/main/java/org/ff4j/feature/togglestrategy/expression/ExpressionParser.java:219-228 | a child of a tree the precedence layer built crashes the substitution exactly when it is an empty sheet |
| Substitution.ConjunctionCrashes | ff4j-core/src/main/java/org/ff4j/feature/togglestrategy/expression/ExpressionParser.java:219-228 | an operand of the AND/NOT layer crashes the substitution exactly when it is an empty sheet |
| ExpressionParser.ParseExpressionWithoutParenthesis | ff4j-core/src/main/java/org/ff4j/feature/togglestrategy/expression/ExpressionParser.java:322-347 | builds a valid, fresh node whose tree is the precedence tree of the text, with no child listed twice |
| ExpressionParser.NewOrNode | ff4j-core/src/main/java/org/ff4j/feature/togglestrategy/expression/ExpressionParser.java:336-339 | an OR node whose children are the AND/NOT trees of the segments, in order |
| Precedence.OperatorFreeIsSheet | ff4j-core/src/main/java/org/ff4j/feature/togglestrategy/expression/ExpressionParser.java:324-326 | text with none of `\|`, `&`, `!` is one sheet carrying the whole text |
| Precedence.OrLayer | ff4j-core/src/main/java/org/ff4j/feature/togglestrategy/expression/ExpressionParser.java:328-345 | text with more than one `\|` segment is an OR over the AND/NOT trees of its segments, in order; otherwise it is the AND/NOT tree of the whole text |
| Precedence.FlatParsedShape | ff4j-core/src/main/java/org/ff4j/feature/togglestrategy/expression/ExpressionParser.java:322-347 | every tree of the precedence layer is an OR of conjunctions, or a conjunction; every NOT sits over exactly one sheet, and ANDs and ORs may sit directly over sheets |
| Precedence.FlatRoundTrip | ff4j-core/src/main/java/org/ff4j/feature/togglestrategy/expression/ExpressionParser.java:322-347 | rendering the precedence tree of space-free text that does not end in `\|` or `&` and has no `&` directly before `\|` gives back the text |
| Precedence.SegmentsRoundTrip | ff4j-core/src/main/java/org/ff4j/feature/togglestrategy/expression/ExpressionParser.java:330 | on space-free text that holds a `\|`, does not end in `\|` or `&` and has no `&` directly before `\|`, the OR split gives exactly the `\|`-separated pieces, and each renders back |
| Precedence.OrOperandsSnoc | ff4j-core/src/main/java/org/ff4j/feature/togglestrategy/expression/ExpressionParser.java:337-339 | the OR loop adds one segment's tree per round, at the end |
| ExpressionParser.ParseExpressionAndNot | ff4j-core/src/main/java/org/ff4j/feature/togglestrategy/expression/ExpressionParser.java:247-274 | builds the AND/NOT tree of the text; with a current node it appends that tree to it and returns the current node, otherwise it returns the new tree |
| ExpressionParser.NewAndNode | ff4j-core/src/main/java/org/ff4j/feature/togglestrategy/expression/ExpressionParser.java:252-263 | an AND node whose children are the operands of the pieces, in order, none listed twice |
| ExpressionParser.NewOperand | ff4j-core/src/main/java/org/ff4j/feature/togglestrategy/expression/ExpressionParser.java:254-262 | a NOT over the sheet of the text after `!` when the piece starts with `!`, otherwise the sheet of the piece |
| Precedence.NotOrSheet | ff4j-core/src/main/java/org/ff4j/feature/togglestrategy/expression/ExpressionParser.java:254-262 | an operand is a NOT exactly when its piece starts with `!`, and it renders back to the piece |
| Precedence.AndOperands | ff4j-core/src/main/java/org/ff4j/feature/togglestrategy/expression/ExpressionParser.java:253-263 | one operand per piece, in order |
| Precedence.AndNotLayer | ff4j-core/src/main/java/org/ff4j/feature/togglestrategy/expression/ExpressionParser.java:247-274 | more than one `&` piece gives an AND of the operands; otherwise a leading `!` gives a NOT over the rest, and anything else gives one sheet |
| Precedence.AndNotShape | ff4j-core/src/main/java/org/ff4j/feature/togglestrategy/expression/ExpressionParser.java:247-274 | every AND/NOT tree is a conjunction of operands |
| Precedence.AndNotRoundTrip | ff4j-core/src/main/java/org/ff4j/feature/togglestrategy/expression/ExpressionParser.java:247-274 | rendering the AND/NOT tree of space-free text that does not end in `&` gives back the text |
| ExpressionParser.ParseOperatorNot | ff4j-core/src/main/java/org/ff4j/feature/togglestrategy/expression/ExpressionParser.java:285-295 | builds a NOT over the sheet of the text after its first character; appends it to the current node when there is one |
| ExpressionParser.ParseSheet | ff4j-core/src/main/java/org/ff4j/feature/togglestrategy/expression/ExpressionParser.java:306-314 | builds the sheet of the text; appends it to the current node when there is one |
| ExpressionNodes.ExpressionNode.AddSubNode | ff4j-core/src/main/java/org/ff4j/feature/togglestrategy/expression/ExpressionParser.java:223 | appends one node to the sub-node list and its tree to the model |
| ExpressionNodes.ExpressionNode.AddAllSubNodes | ff4j-core/src/main/java/org/ff4j/feature/togglestrategy/expression/ExpressionParser.java:198-199 | appends a list of nodes, in order, and their trees to the model |
| ExpressionNodes.ExpressionNode.RemoveSubNode | ff4j-core/src/main/java/org/ff4j/feature/togglestrategy/expression/ExpressionParser.java:224 | removes the first occurrence of the node, if any, and the matching tree from the model |
| JavaStrings.RemoveSpacesIdempotent | ff4j-core/src/main/java/org/ff4j/feature/togglestrategy/expression/ExpressionParser.java:148 | removing spaces twice is the same as removing them once, so the recursive call's own space removal changes nothing |
| JavaStrings.SplitAll | ff4j-core/src/main/java/org/ff4j/feature/togglestrategy/expression/ExpressionParser.java:330 | for text that does not end in the separator, `split` drops nothing and gives exactly the separator-free pieces |
| JavaStrings.NoSeparatorOnePiece | ff4j-core/src/main/java/org/ff4j/feature/togglestrategy/expression/ExpressionParser.java:334 | text without the separator is one piece, itself |
| JavaStrings.Split | ff4j-core/src/main/java/org/ff4j/feature/togglestrategy/expression/ExpressionParser.java:248-249 | text without the separator splits to itself alone, no piece holds the separator, and more than one piece means the separator occurs |
| JavaStrings.IndexOf | ff4j-core/src/main/java/org/ff4j/feature/togglestrategy/expression/ExpressionParser.java:118 | -1 exactly when the character is absent; otherwise the position of its first occurrence |
| JavaStrings.RemoveSpaces | ff4j-core/src/main/java/org/ff4j/feature/togglestrategy/expression/ExpressionParser.java:148 | keeps exactly the characters of the text other than spaces; with RemoveSpacesCount (shorter by the number of spaces), RemoveSpacesAppend (it distributes over concatenation) and RemoveSpacesKeeps (space-free text is unchanged) this fixes order and multiplicity |
| JavaStrings.JoinPieces | ff4j-core/src/main/java/org/ff4j/feature/togglestrategy/expression/ExpressionParser.java:330 | joining the pieces of a text with the separator gives back the text |
| JavaLists.RemoveFirstAt | ff4j-core/src/main/java/org/ff4j/feature/togglestrategy/expression/ExpressionParser.java:224 | removing a node that occurs after a stretch without it drops just that node |
| JavaLists.RemoveFirst | ff4j-core/src/main/java/org/ff4j/feature/togglestrategy/expression/ExpressionParser.java:224 | removes exactly the first occurrence of the element |
| ParserSpec.Parsed | ff4j-core/src/main/java/org/ff4j/feature/togglestrategy/expression/ExpressionParser.java:146-205 | the reference parseExpression: remove spaces; without a `(` parse flat; otherwise extract the groups, escape and restore the operators of the residue the loop leaves (line 184 as written: the residue, not the whole expression), parse that flat and substitute the stored trees; a failure of extraction or substitution is passed on |
| ParserSpec.Extracted | ff4j-core/src/main/java/org/ff4j/feature/togglestrategy/expression/ExpressionParser.java:155-180 | the reference extraction loop: while a `(` is left, fail with ArrayIndexOutOfBounds when it has no matching `)`, pass on a failure of the group's recursive parse, and otherwise do one round and go on |
| ParserSpec.Round | ff4j-core/src/main/java/org/ff4j/feature/togglestrategy/expression/ExpressionParser.java:163-179 | one round stores the escaped group text and the group's parse under `P<idx>`, advances the counter by one and continues on a strictly shorter text |
| ParserSpec.Remainder | ff4j-core/src/main/java/org/ff4j/feature/togglestrategy/expression/ExpressionParser.java:172-178 | the text the next round works on, as written: what follows the character after the group's `)`, or nothing; it drops the text before the `(` and that one character, and is strictly shorter, holding only characters of the text |
| Precedence.FlatParsed | ff4j-core/src/main/java/org/ff4j/feature/togglestrategy/expression/ExpressionParser.java:322-347 | the reference parseExpressionWithoutParenthesis: operator-free text is one sheet; with more than one `\|` segment an OR over the AND/NOT trees of the segments; otherwise the AND/NOT tree of the whole text |
| Precedence.AndNotParsed | ff4j-core/src/main/java/org/ff4j/feature/togglestrategy/expression/ExpressionParser.java:247-274 | the reference parseExpressionAndNot with no current node: spaces removed, more than one `&` piece gives an AND over the operands; otherwise the text (spaces kept) is one operand |
| Precedence.OrSegments | ff4j-core/src/main/java/org/ff4j/feature/togglestrategy/expression/ExpressionParser.java:330 | the OR split of line 330, read as a split on `\|` |
| Precedence.AndPieces | ff4j-core/src/main/java/org/ff4j/feature/togglestrategy/expression/ExpressionParser.java:248 | the AND split of line 248 after removing spaces, read as a split on `&` |
| Substitution.Classify | ff4j-core/src/main/java/org/ff4j/feature/togglestrategy/expression/ExpressionParser.java:217-237 | what processSubstitution does with one child: the stored tree for a non-empty value that is a key, Keep for any other non-empty value; without one, a crash when there is no sub-node, a NOT over the stored tree when the first sub-node's value is a key (whatever the child's operator), Keep otherwise |
| Substitution.OperatorChildBecomesNot | ff4j-core/src/main/java/org/ff4j/feature/togglestrategy/expression/ExpressionParser.java:226-235 | an AND or OR child whose first operand is a stored key is replaced by a NOT over the stored tree, losing its other operands |
| Escaping.EscapeOperators | ff4j-core/src/main/java/org/ff4j/feature/togglestrategy/expression/ExpressionParser.java:166 | the two chained replacements of line 166 (and 184): every `\|` becomes ` OR `, then every `&` becomes ` AND ` |
| Escaping.RestoreOperators | ff4j-core/src/main/java/org/ff4j/feature/togglestrategy/expression/ExpressionParser.java:192 | the three chained replacements of line 192: ` AND ` becomes `&`, then ` OR ` becomes `\|`, then every space is dropped |
| ExpressionNodes.ExpressionNode.WithOperator | ff4j-core/src/main/java/org/ff4j/feature/togglestrategy/expression/ExpressionParser.java:252 | `new ExpressionNode(operator)`: a valid new node with that operator, no value and no sub-nodes |
| ExpressionNodes.ExpressionNode.WithValue | ff4j-core/src/main/java/org/ff4j/feature/togglestrategy/expression/ExpressionParser.java:261 | `new ExpressionNode(value)`: a valid new sheet with that value, no operator and no sub-nodes |
| JavaStrings.RemoveSpacesCount | ff4j-core/src/main/java/org/ff4j/feature/togglestrategy/expression/ExpressionParser.java:148 | the result is shorter than the text by exactly the number of spaces in it |
| JavaStrings.ReplaceAll | ff4j-core/src/main/java/org/ff4j/feature/togglestrategy/expression/ExpressionParser.java:184-192 | the literal `replaceAll` / `replace` of lines 148, 166, 184, 188 and 192: occurrences of the target are replaced from left to right, without overlap |
| Precedence.OrOperands | ff4j-core/src/main/java/org/ff4j/feature/togglestrategy/expression/ExpressionParser.java:337-339 | the children the OR loop builds: one per segment, in order, each the AND/NOT tree of its segment |
| ExpressionParser.ReplaceChild | ff4j-core/src/main/java/org/ff4j/feature/togglestrategy/expression/ExpressionParser.java:223-224 | adding the replacement and then removing the child (also lines 233-234) moves it to the end: the sub-nodes become those before the child, those after it, then the replacement, with the model to match |
| ParserSpec.Key | ff4j-core/src/main/java/org/ff4j/feature/togglestrategy/expression/ExpressionParser.java:166-169 | the key `"P" + idx`: a `P` followed by the decimal text of the counter |
| ParserSpec.KeyShape | ff4j-core/src/main/java/org/ff4j/feature/togglestrategy/expression/ExpressionParser.java:166-169 | every key is a `P` followed by the decimal text of its counter, at least one digit long |

## Left out

- Regular expressions are not modelled. The replacements at lines 148, 166, 184 and 192 are read as literal text replacements.
- The splits at lines 248 and 330 are read as splits on the operator character. As regular expressions the Java patterns differ. The AND pattern at line 248 matches only a backslash followed by `&`, so as written no `&` splits. The OR pattern at line 330 is the alternation of a backslash and the empty string, so as written it cuts the text between every two characters. The model therefore leaves out how both splits behave as written: the tree it describes is the one the operator-character reading gives.
- The rewrite at lines 187-188 is modelled as a literal replacement of `(text)` by the key. The model does not cover a regular-expression syntax error, or a stored text holding a metacharacter.
- `HashMap` iteration order is unspecified in Java. `ExpressionParser.RewriteGroups` visits the keys in an arbitrary order, chosen nondeterministically.
- ExpressionNode and ExpressionOperator are not part of this model. Their behaviour (constructors, `getSubNodes`, `getValue`, `getOperator`) is inferred from how the parser uses them.
- `ExpressionNodes.ExpressionNode.RemoveSubNode`: `List.remove` is modelled as removal by reference identity. Java would use `ExpressionNode.equals`, which is not part of this model.
- ExpressionParser.SubstituteAll: requires that no node is listed twice among the children. Every tree the precedence layer builds has this property (`ParseExpressionWithoutParenthesis` ensures it), and that is the only caller.
- ExpressionParser.ExtractExprWithinParenthesis: requires a `(` in the text, as its only caller guarantees at line 161. The model does not give the scan's behaviour when `indexOf` returns -1.
- ExpressionParser.ParseExpression: does not state that the returned node is freshly allocated. It states only its validity and its tree.
- ExpressionParser.RewriteGroups: states only that text without `(` comes back unchanged. That is the only case line 184 can produce, because the residue of the loop has no `(`.
- Line 184 is modelled as written. It escapes the residue `workingExpr` as the loop leaves it, not the original expression.
- Stack overflow from deep recursion and memory exhaustion are not modelled. Java's 32-bit `int` counter is unbounded here; it would need more than 2^31 groups to wrap.
- The rest of the repository is not part of this model: the feature stores, the other toggle strategies, and how `ExpressionNode` evaluates a tree.
