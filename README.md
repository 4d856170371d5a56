# Browser utilities: a verified model

This project models the deterministic core of a small set of browser utilities written in JavaScript for Preact, and proves properties of that model in Dafny. Under the DOM and framework calls, the utilities are string and tree transforms plus one small state machine:

- **CSS modules** (`cssModule`). It joins a CSS template and hashes it with a 32-bit multiply-by-31 hash printed in hexadecimal. It extracts the `.name` class tokens and maps each to `css-` plus six hash digits. Two replacement passes rewrite the class selectors, and the result is injected as one style element.
- **Scoped styles** (`withScopedStyles`). `processStyles` suffixes every selector of every `{…}` rule with the component's unique class. The node walker captures `<style>` children, notices styled-jsx and appends the unique class to every element it reaches.
- **Class-name mapping** (`withCssModule`, `useCssModule`). A class name is split into tokens, each token is looked up in a style map (the hook looks it up in camel case), and the tokens are joined again. Both walk the tag elements of a virtual-node tree.
- **`styled`**. It joins a tagged template, rewrites every `{` of the CSS to scope it by a generated key, builds the wrapper's class name, and marks every child element with the key as an attribute.
- **Formatting** (`String.prototype.format`, `Date.prototype.format`, `Array.prototype.unique`). These cover positional and keyed `{…}` placeholders, the `yMdhmsqS` date pattern over given date fields, and de-duplication in first-occurrence order.
- **`obj2Arr`**. It flattens a nested object into pre-order `{grade, index, value}` records.
- **`convertUrlsToLinks`**. It wraps every URL of a text in an anchor.
- **`Dialog`**. A stack of full-screen dialogs and a z-index counter, kept in step with the browser history by `show` and the `popstate` listener.

Shared modules hold:
- `Text`: JavaScript character classes and whitespace splitting, `join`, `split`, `trim`, `substr`, and a literal `replace(/p/g, r)`.
- `Radix`: `Number.prototype.toString(radix)`.
- `Collections`: `Array.from(new Set(xs))`.
- `VNode`: the abstract virtual-node tree `{type, props: {className, children, …}}`, with reference traversals that the tree rewriters are proved against.

Code that loops or updates state is modelled with methods and loops:
- `generateHash`, the extraction loop and the `classMap` loop;
- the template loops of `styled`;
- both `format` functions;
- `obj2Arr`'s recursive `traverse` over a `Flattener` object that holds `result` and `index`;
- the `Dialog` stack, as a class with `show` and `popstate`;
- the scoped-styles walker, as a class holding `state.current`.

Each is proved equal to a specification function, and the properties are proved about those functions. Pure code is modelled with functions and lemmas.

The CSS-module example `.container { padding: 16px; } .container:hover { opacity: 0.8; }` is documented as mapping only `container`. The extraction regex also captures the `8` of `0.8`, so the code maps `8` too. The model follows the code, and `CssModule.Scenario` proves what the code does.

## Model

| member | source | states |
|---|---|---|
| CssModule.ValueAt | utils/css-module/css-module.js:14 | `values[idx] \|\| ''`: a missing or falsy value contributes the empty string, a present one its text |
| Styled.InterleaveIsTemplateConcat | utils/other/styled.js:56-59 | the loop's text equals the template `reduce` of `cssModule` with every value present: the two utilities join templates alike |
| CssModule.ToInt32 | utils/css-module/css-module.js:86 | `hash \|= 0` gives the signed 32-bit integer congruent to the input modulo 2^32 |
| CssModule.JsStepIsHashStep | utils/css-module/css-module.js:85-86 | one iteration `((hash << 5) - hash) + code`, truncated to 32 bits and read unsigned, is `(31·h + code) mod 2^32` |
| CssModule.GenerateHash | utils/css-module/css-module.js:82-89 | the loop over the UTF-16 code units returns the base-16 digits of the multiply-by-31 hash modulo 2^32, starting from 0 |
| CssModule.HexShape | utils/css-module/css-module.js:88 | the printed hash has 1 to 8 lowercase hex digits, no leading zero unless it is `"0"`, and reads back as the hash value |
| CssModule.HexOfEmpty | utils/css-module/css-module.js:82-88 | the hash of the empty text prints as `"0"` |
| CssModule.ContentHashIsFullHash | utils/css-module/css-module.js:18 | `slice(0, 8)` of the printed hash is the whole hash |
| CssModule.ClassTokens | utils/css-module/css-module.js:25-30 | every captured name of `/\.([a-zA-Z0-9_-]+)/g` is a non-empty run of name characters |
| CssModule.ClassTokensName | utils/css-module/css-module.js:25-30 | a `.` followed by a maximal name run yields exactly that run, and matching resumes after it |
| CssModule.ClassTokensPlain | utils/css-module/css-module.js:25-30 | text without a `.` yields no class name |
| CssModule.ClassTokensLoneDot | utils/css-module/css-module.js:25-30 | a `.` not followed by a name character yields nothing |
| CssModule.ExtractClassNames | utils/css-module/css-module.js:25-31 | the `exec` loop filling a `Set`, then `Array.from`, gives the distinct captured names in first-match order |
| CssModule.NameEnd | utils/css-module/css-module.js:25 | the `[a-zA-Z0-9_-]+` capture is greedy: the returned end has name characters up to it and none at it (or the text ends) |
| CssModule.ClassListOf | utils/css-module/css-module.js:31-34 | the class list is empty exactly when the text has no class token, and holds exactly the captured names |
| CssModule.ScopedNameShape | utils/css-module/css-module.js:39-40 | a scoped name is `css-` and one to six hex digits, 5 to 10 characters, and is itself a class name |
| CssModule.ClassMapOfEntries | utils/css-module/css-module.js:37-41 | the map filled by the `forEach` has exactly the listed names as keys, each mapped to `css-` + the first six digits of the hash of `name-contentHash` |
| CssModule.ScopedClass | utils/css-module/css-module.js:39-40 | the value stored for a name is its scoped name, `css-` + the first six digits of `generateHash(name + "-" + contentHash)` |
| CssModule.BuildClassMap | utils/css-module/css-module.js:37-41 | the `forEach` loop builds exactly that map |
| CssModule.ClassMapKeysAndValues | utils/css-module/css-module.js:37-41 | for a text, the map's keys are exactly its class tokens; each value is `"css-" + Take(Hex(name + "-" + contentHash), 6)` and is a class name |
| CssModule.SelectorTail | utils/css-module/css-module.js:47 | the optional `(:ident)` and the lookahead `(?=[\s,{])` after a maximal name run: the matched suffix is followed by whitespace, `,` or `{` |
| CssModule.Match1 | utils/css-module/css-module.js:47 | a first-pass match at the front starts with `.` and ends right before a character of the text |
| CssModule.Match1Groups | utils/css-module/css-module.js:47 | a first-pass match captures a non-empty class name, and the character it stops before is whitespace, `,` or `{` |
| CssModule.Match2 | utils/css-module/css-module.js:58 | a second-pass match at the front is a `.` and a non-empty name within the text |
| CssModule.Pass1Selector | utils/css-module/css-module.js:46-54 | a `.name`, optionally followed by `:ident`, and then by whitespace, `,` or `{`, is replaced by the callback with the pseudo-class kept; the scan resumes after it |
| CssModule.Pass1Unmatched | utils/css-module/css-module.js:46-54 | a `.name` followed by anything other than whitespace, `,`, `{` or a pseudo-class is copied unchanged |
| CssModule.Pass2NameMatch | utils/css-module/css-module.js:57-65 | a `.name` not followed by a name character or `:` is replaced by the second callback |
| CssModule.Pass2NameColon | utils/css-module/css-module.js:57-65 | a `.name` directly followed by `:` is not touched by the second pass |
| CssModule.PseudoElementKept | utils/css-module/css-module.js:46-65 | `.foo::before` is matched by neither pass, so it keeps its original name |
| CssModule.Pass1Plain | utils/css-module/css-module.js:46-54 | text without a `.` passes the first pass unchanged |
| CssModule.Pass2Plain | utils/css-module/css-module.js:57-65 | text without a `.` passes the second pass unchanged |
| CssModule.Pass1KeepsUnmapped | utils/css-module/css-module.js:49-52 | where no mapped name appears as a `.name` token, the first pass returns the text unchanged |
| CssModule.Pass2KeepsUnmapped | utils/css-module/css-module.js:60-63 | the same for the second pass |
| CssModule.RewriteKeepsUnmapped | utils/css-module/css-module.js:44-65 | with no mapped token in the text, an empty map in particular, both passes together are the identity |
| CssModule.CssModuleCall | utils/css-module/css-module.js:7-75 | no class token: `null` and nothing injected. Otherwise the class map of the extracted names, and exactly one injection of the rewritten CSS tagged with the content hash; the fresh hash set means the duplicate check never fires |
| CssModule.Scenario | utils/css-module/css-module.js:25-65 | for `.container {…} .container:hover { opacity: 0.8; }` the keys are `container` and `8`, both selectors get the same scoped name with `:hover` kept, and `0.8` becomes `0.` + the scoped name of `8` |
| ScopedStyles.ProcessStyles | utils/css-module/withScopedStyles.js:95-108 | no document or empty content gives `""`; otherwise the rule rewrite of the content |
| ScopedStyles.SelectorLen | utils/css-module/withScopedStyles.js:98 | the group `([^{]+)` takes the longest prefix without `{` |
| ScopedStyles.CloseAt | utils/css-module/withScopedStyles.js:98 | the group `(\{[^}]*\})` ends at the first `}` |
| ScopedStyles.RuleAt | utils/css-module/withScopedStyles.js:98 | a match at the front is a non-empty selector text without `{`, then `{`, a body without `}`, then `}` |
| ScopedStyles.ScopedRule | utils/css-module/withScopedStyles.js:98-107 | such a rule becomes its scoped selectors followed by the rule text verbatim, and the scan resumes after the `}` |
| ScopedStyles.ScopedNoBlock | utils/css-module/withScopedStyles.js:98 | text in which no `}` follows a `{` is left unchanged |
| ScopedStyles.SelectorCount | utils/css-module/withScopedStyles.js:99-104 | the scoped selector list has as many `,` as the original, so the number of selectors is kept |
| ScopedStyles.SingleSelector | utils/css-module/withScopedStyles.js:99-104 | a single selector, starting with `:` or not since both branches agree, becomes the trimmed selector + `.` + the class |
| ScopedStyles.ScopedBraces | utils/css-module/withScopedStyles.js:98-107 | the rewrite keeps the number of `{` |
| ScopedStyles.WithClass | utils/css-module/withScopedStyles.js:76-78 | a truthy old class name gives `old + " " + uniqueClass`; otherwise `uniqueClass` |
| ScopedStyles.Process | utils/css-module/withScopedStyles.js:16-29 | a node without a type is returned with the state unchanged; a `style` element with children records them and becomes `null` |
| ScopedStyles.ProcessSeq | utils/css-module/withScopedStyles.js:81-82 | `children.map(processVNode)` keeps the array length, each call seeing the state the previous one left |
| ScopedStyles.ScopedState.constructor | utils/css-module/withScopedStyles.js:43-51 | the initial state: empty style content, no styled-jsx, the given unique class |
| ScopedStyles.ScopedState.ProcessVNode | utils/css-module/withScopedStyles.js:16-30 | the returned node and the new `state.current` are the walk's specification applied to the node and the old state |
| ScopedStyles.ScopedState.ProcessNodeWithClass | utils/css-module/withScopedStyles.js:72-87 | the same for a typed element: new class name, and children processed element by element by the loop, or as one child |
| ScopedStyles.JSXSticky | utils/css-module/withScopedStyles.js:24-27 | once styled-jsx is seen the flag stays set whatever is walked next |
| ScopedStyles.ClassAdded | utils/css-module/withScopedStyles.js:73-78 | an ordinary element keeps its kind and other props, and its class tokens become the old tokens followed by the unique class |
| ScopedStyles.PlainKeepsState | utils/css-module/withScopedStyles.js:16-29 | a tree with no `style` element and no styled-jsx leaves the state as it was |
| ScopedStyles.WithClassWords | utils/css-module/withScopedStyles.js:76-78 | the new class name's tokens are the old class name's tokens followed by the unique class |
| ScopedStyles.ScopedKeepsStructure | utils/css-module/withScopedStyles.js:72-87 | on a tree with no `style` element and no styled-jsx, the walk changes nothing but the class names of the typed elements it reaches: array children are mapped item by item, a single child is walked alone, falsy children are left as they are |
| ScopedStyles.ScopedMapsClasses | utils/css-module/withScopedStyles.js:72-87 | on such a tree, the class names of the reached elements, in pre-order, each become `WithClass` of the old one |
| ScopedStyles.ScopedTokens | utils/css-module/withScopedStyles.js:72-87 | on such a tree, every element the walk reaches keeps its old class tokens and gains the unique class as the last one |
| WithCssModule.Lookup | utils/css-module/with-css-module.js:60 | `styles[cls] \|\| cls`: the mapped value when present and non-empty, else the token itself |
| WithCssModule.TransformClassName | utils/css-module/with-css-module.js:51-63 | a falsy class name gives `''` |
| WithCssModule.TransformedTokens | utils/css-module/with-css-module.js:53-62 | splitting the result again gives the input's non-empty tokens in order, each looked up |
| WithCssModule.EmptyStylesNormalise | utils/css-module/with-css-module.js:53-62 | with an empty map the class name is normalised to its tokens joined by single spaces, with the same tokens, and doing it twice changes nothing |
| WithCssModule.ProcessShallow | utils/css-module/with-css-module.js:66-89 | non-elements, falsy values and component elements come back unchanged; a tag element keeps its kind and other props and gets the transformed class name |
| WithCssModule.ProcessItems | utils/css-module/with-css-module.js:77-78 | an array of children keeps its length |
| WithCssModule.ProcessVNode | utils/css-module/with-css-module.js:91-104 | outside a deep component call it is the shallow walk; a deep component call processes the rendered output, or returns the node when rendering throws |
| WithCssModule.ProcessKeepsStructure | utils/css-module/with-css-module.js:70-88 | apart from class names the processed tree equals the input tree |
| WithCssModule.ProcessMapsClasses | utils/css-module/with-css-module.js:70-88 | the class names of the processed tree are those of the input, in pre-order, each transformed |
| WithCssModule.Wrapped | utils/css-module/with-css-module.js:108-119 | the wrapper returns the component node when rendering fails; otherwise the rendered tree, unchanged apart from class names, with each reached class name transformed |
| UseCssModule.KebabToCamel | utils/css-module/use-css-module.js:70 | `/-(\w)/g` with upper-casing never lengthens the token |
| UseCssModule.KebabNoDash | utils/css-module/use-css-module.js:70 | a token without `-` is its own camel form |
| UseCssModule.KebabIsCamel | utils/css-module/use-css-module.js:70 | word segments joined by single dashes convert to the camel-case name of the same segments, e.g. `user-avatar` to `userAvatar` |
| UseCssModule.DoubleDash | utils/css-module/use-css-module.js:70 | a `-` not followed by a word character stays: `a--b` becomes `a-B` |
| UseCssModule.Lookup | utils/css-module/use-css-module.js:70-72 | the lookup uses the camel form, but the fallback is the token as written |
| UseCssModule.TransformClassName | utils/css-module/use-css-module.js:62-76 | a falsy class name gives `''` |
| UseCssModule.TransformedTokens | utils/css-module/use-css-module.js:65-74 | splitting the result again gives the input's tokens in order, each looked up |
| UseCssModule.AgreesWithoutDashes | utils/css-module/use-css-module.js:68-73 | on class names without `-`, the hook and the higher-order component transform alike |
| UseCssModule.HandleVNode | utils/css-module/use-css-module.js:80-103 | falsy values, non-elements and component elements come back unchanged; a tag element keeps its kind and other props and gets the transformed class name |
| UseCssModule.HandleItems | utils/css-module/use-css-module.js:94-96 | an array of children keeps its length |
| UseCssModule.HandleKeepsStructure | utils/css-module/use-css-module.js:89-102 | apart from class names the handled tree equals the input tree |
| UseCssModule.HandleMapsClasses | utils/css-module/use-css-module.js:89-102 | the class names of the handled tree are those of the input, in pre-order, each transformed |
| Styled.BuildCss | utils/other/styled.js:56-59 | the loop builds `arr[0] + value[0] + arr[1] + … + arr[n]` (`createGlobal` runs the same loop, lines 73-76) |
| Styled.GenerateUniqueString | utils/other/styled.js:18-22 | the key is `css_` followed by the base-36 digits of two numbers below 10000: 6 to 10 characters |
| Styled.KeyDigits | utils/other/styled.js:19-21 | a number below 10000 prints in one to three base-36 digits |
| Styled.KeyHasNoSyntax | utils/other/styled.js:18-22 | the key holds no `{`, `&`, `,` or white space |
| Styled.RunLen | utils/other/styled.js:61 | `[ \|\t\|\n\|\r]*` takes the longest run of space, `\|`, tab, line feed and carriage return |
| Styled.MatchAt | utils/other/styled.js:61 | a match of `/[&]?[ \|\t\|\n\|\r]*\{/` at the front ends in its `{` |
| Styled.AmpBlock | utils/other/styled.js:61-62 | `&`, a run and `{`: the `&` becomes `.` + key, and the scan goes on after the `{` |
| Styled.BareBlock | utils/other/styled.js:61-62 | a run and `{` without `&`: `[key]` is put in front |
| Styled.HoverExample | utils/other/styled.js:61-62 | `&:hover {` becomes `&:hover[key] {` |
| Styled.AmpAlone | utils/other/styled.js:61-62 | an `&` begins a match exactly when a run and `{` follow it directly; otherwise the `&` is copied and the scan goes on after it |
| Styled.RewriteInert | utils/other/styled.js:61 | characters taking no part in a match are copied unchanged |
| Styled.RewriteNoBrace | utils/other/styled.js:61 | text without `{` is left unchanged |
| Styled.RewriteBraces | utils/other/styled.js:61 | every match ends in exactly one `{`, so the rewrite keeps the number of `{` |
| Styled.MatchBraces | utils/other/styled.js:62 | one replacement holds as many `{` as its match |
| Styled.MakeStyled | utils/other/styled.js:55-69 | the injected CSS is the rewritten template; `res.className` is the key; the wrapper's class is the key, or the key and the base's class under `extend` |
| Styled.WrapperClass | utils/other/styled.js:65 | `com ? cssKey + ' ' + com.className : cssKey` |
| Styled.ExtendOneLevel | utils/other/styled.js:81-83 | an extended wrapper's class tokens are the new key and the base's own key: one level only |
| Styled.Render | utils/other/styled.js:65-66 | the wrapper renders a `div` with the wrapper class |
| Styled.AddClassToChildren | utils/other/styled.js:41-52 | non-objects come back unchanged, arrays keep their length, an element keeps its kind and class name |
| Styled.AddClassItems | utils/other/styled.js:43-45 | arrays are mapped element by element |
| Styled.AddClassMarks | utils/other/styled.js:41-52 | afterwards every element reached through arrays and object children carries `[key]: ''` |
| Styled.AddClassOnlyMarks | utils/other/styled.js:41-52 | removing that attribute again gives the input tree: nothing else changes |
| DateFormat.Format | utils/other/date-format.js:20-46 | with no argument the text comes back unchanged; the keyed loop or the numbering and the positional loop compute the substitution, and the call throws exactly when a single object argument has a present property whose key is a braced quantifier |
| DateFormat.FormatNull | utils/other/date-format.js:23-29 | `null` alone is an object argument with no properties: the text is unchanged |
| DateFormat.FormatUndefined | utils/other/date-format.js:30-42 | `undefined` alone is positional: the `{}` are numbered, nothing is filled in |
| DateFormat.FormatNoBrace | utils/other/date-format.js:20-46 | text without `{` comes back unchanged, whatever the arguments, unless a quantifier key throws |
| DateFormat.KeyedNoBrace | utils/other/date-format.js:23-29 | keyed substitution does nothing to text without `{` |
| DateFormat.NumberNoBrace | utils/other/date-format.js:31-36 | numbering does nothing to text without `{` |
| DateFormat.PositionalNoBrace | utils/other/date-format.js:37-42 | positional substitution does nothing to text without `{` |
| DateFormat.NumberedHasNoEmpty | utils/other/date-format.js:31-36 | after numbering no `{}` is left |
| DateFormat.QuantifierKeys | utils/other/date-format.js:26 | the keys that make `new RegExp("({" + key + "})")` throw are those of the forms `d+`, `d+,` and `d+,d+`: `0`, `12,` and `1,2` do, `name`, `0a`, `,1` and `1,2,3` do not |
| DateFormat.ArrayArgumentThrows | utils/other/date-format.js:23-27 | `'{0}'.format(['a'])` takes the keyed path, since an array is an object, and throws on the key `0` |
| DateFormat.FirstValueSnoc | utils/other/date-format.js:24-25 | one more property changes the first value given for a key only when no earlier property gave one |
| DateFormat.KeyedAt | utils/other/date-format.js:24-28 | after a prefix without `{`, `{key}` becomes the value of the first property with that key whose value is neither `null` nor `undefined`, and stays `{key}` when there is none; the other keys' replacements leave it alone, whatever the order of the properties |
| DateFormat.KeyedHoles | utils/other/date-format.js:24-28 | in a template of pieces without `{` around placeholders of any keys, every placeholder is filled that way |
| DateFormat.FormatKeyed | utils/other/date-format.js:23-29 | a single object argument fills every placeholder of such a template, or throws when a property with a value has a braced-quantifier key |
| DateFormat.FormatKeyedExample | utils/other/date-format.js:6-11 | `'我是{name}，今年{age}了'.format({name: 'lisi', age: 30})` is `'我是lisi，今年30了'` |
| DateFormat.NumberHole | utils/other/date-format.js:31-36 | the first `{}` after a prefix without `{}` becomes `{k}`, and the numbering goes on after it from `k + 1` |
| DateFormat.NumberPrefix | utils/other/date-format.js:31-36 | the numbering copies a prefix without `{}` that stands before a `{` |
| DateFormat.NumberJoin | utils/other/date-format.js:31-36 | the holes `{}` of any text, cut into pieces without `{}`, are numbered `{k}`, `{k+1}`, … from left to right |
| DateFormat.PositionalAt | utils/other/date-format.js:37-42 | after a prefix without `{`, `{i}` becomes the `i`-th argument when that is present, and stays `{i}` when it is `null`, `undefined` or missing; the other placeholders' replacements leave it alone |
| DateFormat.FormatPositional | utils/other/date-format.js:30-42 | positional mode on pieces without `{` joined by `{}`: the `k`-th hole becomes the `k`-th argument when present, and `{k}` otherwise |
| DateFormat.FormatExample | utils/other/date-format.js:30-42 | `"{}-{}".format("a", "b")` is `"a-b"` |
| DateFormat.QuarterRange | utils/other/date-format.js:73 | `Math.floor((month0 + 3) / 3)` lies in 1..4 and is the quarter whose three months hold the month |
| DateFormat.FormatDate | utils/other/date-format.js:66-89 | the year step and then the loop over `M d h m s q S` compute the pattern replacement |
| DateFormat.YearDigits | utils/other/date-format.js:77-79 | for a four-digit year a run of one to four `y` becomes the year's last that-many digits |
| DateFormat.PaddedField | utils/other/date-format.js:84 | a field of two or more letters is always two characters, and for a value below 100 it is the zero-padded number |
| DateFormat.SingleField | utils/other/date-format.js:84 | a one-letter field is the number as printed |
| DateFormat.FirstRun | utils/other/date-format.js:77 | the first match of `c+` is the first run of `c`: after a prefix without `c`, a run of `n` letters not followed by another `c` is found at the prefix's end and is `n` long |
| DateFormat.YearStepFirstRun | utils/other/date-format.js:77-79 | for a four-digit year only the first run of one to four `y` is replaced, by the year's last that-many digits; the text around it is unchanged and the count of `y` drops by the run's length |
| DateFormat.PatternStepFirstRun | utils/other/date-format.js:81-86 | for a run pattern only its first run is replaced, by the field's text; the text around it is unchanged |
| DateFormat.PatternStepCount | utils/other/date-format.js:81-86 | each pattern replaces only its first match: the letter's count drops by that match's length; a letter absent from the text changes nothing |
| Collections.UniqueIsFirstOccurrences | utils/other/date-format.js:99-101 | `Array.from(new Set(this))` keeps exactly the first occurrence of each element, in input order |
| Collections.UniqueElements | utils/other/date-format.js:99-101 | the result has no duplicates and exactly the elements of the input |
| TranArray.Flattener.AddToArray | utils/other/tran-array.js:39-45 | pushes `{grade, index, value}` with the current index, and the index goes up by one |
| TranArray.Flattener.Traverse | utils/other/tran-array.js:16-36 | appends the object's records in pre-order, numbered on from the current index; the `k`-th own key has grade `currentGrade ++ [k]` |
| TranArray.Flattener.Visit | utils/other/tran-array.js:20-31 | an object value gives its key and then its subtree; a primitive under a non-numeric key gives the key and the value at `grade ++ [1]`; under a numeric key only the value |
| TranArray.Obj2Arr | utils/other/tran-array.js:6-51 | a primitive gives `null`; an object gives its records with indices 0, 1, 2, … in push order; an empty object gives `[]` |
| TranArray.Indexed | utils/other/tran-array.js:42 | the `index` of the `i`-th record pushed from `start` is `start + i` |
| TranArray.ItemsBelow | utils/other/tran-array.js:17-33 | every record of the `k`-th key lies below `currentGrade ++ [k]` |
| TranArray.ItemsInPreOrder | utils/other/tran-array.js:16-36 | the grades come out in strictly increasing lexicographic order |
| TranArray.GradesDistinct | utils/other/tran-array.js:16-36 | no two records share a grade |
| TranArray.KeysThatParse | utils/other/tran-array.js:25 | `parseInt` succeeds on `"0"`, `" -12"`, `"0x1f"` and `"7up"`, and fails on `"a"`, `""`, `"0x"` and `"-"` |
| TranArray.NestedExample | utils/other/tran-array.js:16-36 | `{a: 1, b: ['x']}` gives the key `a` at 1, its value at 1.1, the key `b` at 2 and the element `x` at 2.1 |
| UrlsToLinks.ConvertUrlsToLinks | utils/urls-to-links/index.js:8 | a non-string gives `""` |
| UrlsToLinks.SchemeLen | utils/urls-to-links/index.js:12 | the scheme alternatives, letter case ignored, lie within the text |
| UrlsToLinks.MatchLen | utils/urls-to-links/index.js:12 | a match at the front is non-empty and within the text |
| UrlsToLinks.UrlMatches | utils/urls-to-links/index.js:11-12 | a URL followed by the end of the text or by white space is matched exactly |
| UrlsToLinks.MatchIsUrl | utils/urls-to-links/index.js:11-12 | conversely every match is a URL ending at the end of the text or at white space |
| UrlsToLinks.LinkifyUrl | utils/urls-to-links/index.js:14-18 | such a URL becomes `<a href="H" target="_blank">U</a>` and the scan goes on after it |
| UrlsToLinks.LinkifyPlain | utils/urls-to-links/index.js:14-18 | characters that cannot begin a scheme are copied unchanged |
| UrlsToLinks.LinkifyNoScheme | utils/urls-to-links/index.js:14-18 | a text with no scheme anywhere comes back unchanged |
| UrlsToLinks.WwwHref | utils/urls-to-links/index.js:16 | a lower-case `www.` URL links over `http://` |
| UrlsToLinks.UpperWwwHref | utils/urls-to-links/index.js:16 | an upper-case `WWW.` URL links to itself, with no scheme added |
| UrlsToLinks.UpperWwwExample | utils/urls-to-links/index.js:12-16 | `WWW.ab` is linked case-insensitively, and its href is `WWW.ab` |
| Dialog.DialogStack.constructor | utils/other/dialog.js:6-8 | the stack starts empty with the counter at 1001, which is in step |
| Dialog.DialogStack.Show | utils/other/dialog.js:46-56 | `show` raises the counter, appends `{fn, zIndex}` with the new value, and issues `replaceState` or `pushState` carrying it |
| Dialog.DialogStack.OnPopState | utils/other/dialog.js:23-32 | the listener makes the `popstate` step: a lower index pops and lowers the counter, a higher one calls `history.back()`, an equal one does nothing |
| Dialog.ShowStep | utils/other/dialog.js:46-56 | the new counter is one higher, the new dialog is appended last with that z-index, and the history call carries it |
| Dialog.PopStep | utils/other/dialog.js:23-32 | a missing index reads as 0; a lower one pops the top dialog, if any, and lowers the counter even on an empty stack |
| Dialog.Visibility | utils/other/dialog.js:34-38 | exactly the last dialog is visible |
| Dialog.ShowKeepsSynced | utils/other/dialog.js:46-56 | `show` keeps the counter equal to 1001 plus the stack height, with the `i`-th dialog at 1002 + `i` |
| Dialog.PopKeepsSynced | utils/other/dialog.js:23-32 | so does `popstate`, unless it pops an empty stack |
| Dialog.PopEmptyDrifts | utils/other/dialog.js:24-27 | a back event on an empty stack still lowers the counter, so the next dialog is shown at 1001 |
| Dialog.ShowThenBack | utils/other/dialog.js:23-56 | going back to the entry a dialog was pushed over undoes the `show` |
| Dialog.ForwardIsUndone | utils/other/dialog.js:29-30 | an entry above the counter is sent back and changes nothing |
| Dialog.OnePopPerEvent | utils/other/dialog.js:25-28 | one event pops at most the top dialog, however far back the entry lies |
| Dialog.ShownIsVisible | utils/other/dialog.js:35-36 | a dialog just shown is the only visible one |
| Dialog.PopRevealsBelow | utils/other/dialog.js:25-36 | after a pop the dialog below is visible again |
| Radix.Digits | utils/css-module/css-module.js:88 | `toString(radix)` on a non-negative number: at least one digit of the radix, `"0"` exactly for zero, no leading zero |
| Radix.ValueOfDigits | utils/css-module/css-module.js:88 | the printed digits read back as the number |
| Radix.DigitsInjective | utils/css-module/css-module.js:88 | two numbers print alike only when they are equal |
| Radix.DigitsLength | utils/css-module/css-module.js:88 | a number below `b^k` prints in at most `k` digits |
| Radix.DigitsLengthAtLeast | utils/other/styled.js:21 | a number of at least `b^(k-1)` prints in at least `k` digits |
| Text.WordsOfJoin | utils/css-module/with-css-module.js:53-62 | joining words with single spaces and splitting on white space gives the words back |
| Text.Split | utils/css-module/withScopedStyles.js:99 | `split(c)` gives one more piece than there are `c`, and no piece holds `c` |
| Text.JoinSplit | utils/css-module/withScopedStyles.js:99-104 | joining the pieces of `split(c)` with `c` gives the text back |
| Text.Trim | utils/css-module/withScopedStyles.js:100 | `trim()` is a slice that neither starts nor ends with white space, and only white space lies outside it |
| Text.Substr | utils/other/date-format.js:78 | `substr(start)` with one argument: a negative start counts from the end |
| Text.ReplaceAllAbsent | utils/other/date-format.js:27 | a literal `replace(/p/g, r)` leaves text without `p` unchanged |

## Left out

- DOM output is not performed; the model records what would be created. This covers `injectCss`, `injectStyles`, `addStyleToDocument` and `createStyle`. Where the source injects, the model returns it as emitted data: `CssModule.Injection`, and `StyledComponent.css`.
- Framework internals are not modelled: `h`, `cloneElement`, `render`, the signals' render effects and the hooks (`useRef`, `useEffect`, `useMemo`, `useCallback`). Virtual nodes are the abstract `VNode.Node` datatype.
- The wrapper component of `withScopedStyles` is not modelled. It uses `useCallback` without importing it, so it cannot run. The model covers `processStyles`, `processNodeWithClass` and the node filter of `processVNode`.
- The `state.current` fields `styleElement` and `isTransitioning`, and `useInjectStyles`/`useStyleCleanup`, are left out. They exist only for DOM injection and clean-up.
- Randomness and time are not modelled: `generateUniqueId` (a clock and `Math.random`) is left out, and the unique class is a parameter. `generateUniqueString` takes its two random draws as parameters.
- Date getters are not modelled: `Date.prototype.format` takes the getter values as `DateFields`.
- Component functions are parameters, not code. The deep expansion in `withCssModule` calls a component the model cannot see, so it takes a `render` parameter whose `None` stands for a thrown exception.
- `console.warn` and `console.error` are left out, as is the static-property copy loop together with `displayName` in `withCssModule`. Neither affects a returned value.
- `type()` in date-format.js is left out. It only reads `Object.prototype.toString`.
- DateFormat.Keyed: keys are spliced into `new RegExp` unescaped, and values are used as replacement patterns. Keys of the forms `d+`, `d+,` and `d+,d+` are modelled: they form a braced quantifier with nothing to repeat, the constructor throws a SyntaxError, and `DateFormat.FormatSpec` gives `None`. Keys holding other regex metacharacters, and values holding `$` patterns, are not modelled: `Keyed` treats each key and each value as literal text (`Text.ReplaceAll`). The same goes for the positional loop (utils/other/date-format.js:40): `Positional` inserts an argument's text literally, so a `$` pattern in it (`$&`, `$1`, `$$`, …) is not expanded as `String.prototype.replace` would. `for…in` order and the objects' string forms are given by the caller.
- WithCssModule.TransformClassName: the class name is a string or absent (`className: Option<string>` in `VNode.Node`). A truthy class name that is not a string, such as an array, an object or a non-zero number, makes `className.split` throw a TypeError (utils/css-module/with-css-module.js:54). On the deep path of `WithCssModule.ProcessVNode` that error is caught and the component node itself is returned (lines 94-100). Neither behaviour is modelled.
- UseCssModule.TransformClassName: likewise, a truthy class name that is not a string throws at `className.split` (utils/css-module/use-css-module.js:66). The model does not capture this.
- Template values in `cssModule` and `styled` are taken by their string forms. `toString` of arbitrary objects is not modelled.
- Lookups such as `classMap[name]` and `styles[cls]` are map lookups. Prototype properties such as `__proto__` or `constructor` are not modelled.
- Strings are sequences of Unicode scalar values, and lone surrogates are not representable. The hash converts to UTF-16 code units explicitly.
- UrlsToLinks.MatchLen: the two single-unit places of the URL pattern are stated for characters outside the Basic Multilingual Plane. Other regular expressions in the model use classes for which the two code units of such a character behave like one character.
- Styled.AddClassToChildren: this is modelled on values. In the source, `children.props.children` is updated in place on the caller's nodes, so aliasing of those nodes (the input tree being changed too) is not captured.
- TranArray.Obj2Arr: only own enumerable properties are modelled, in `for…in` order. Inherited enumerable properties are skipped by `hasOwnProperty` without changing the counter, so leaving them out changes no record. Functions count as primitives, as `typeof` is not `'object'` for them.
- Dialog: the rest of the history state object, the URL, and the browser's own history stack are not modelled. `history.back()` and the state calls are emitted as `HistoryCall` values. `e.state?.zIndex || 0` is modelled for numeric z-indices only; a non-numeric one and `NaN` are not modelled.
- `Dialog.App` renders each dialog's component. Only the visibility flags are modelled.
