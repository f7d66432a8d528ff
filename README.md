# pulse: scheduler, reactive cells, reactivity-lifting rewrite and renderer

This project models the three sequential cores of the `pulse` UI runtime and
proves what each of them does.

- **Scheduler and reactive cells** (`pulse/state.ts`).
  - `Scheduling` (scheduler.dfy): the `Scheduler` class keeps three deduplicating task tiers (micro, normal, batch) and a drain that is armed once at a time. The drain snapshots and clears the tiers, then runs the micro tasks, the normal tasks and the batch tasks in order, catching any task that throws.
  - `State` (cells.dfy):
    - the `state` cell, which coalesces writes into one flush per batch;
    - keyed subscriptions;
    - the shared `computedStack` tracker with its `subscriptions` counters;
    - `computed` cells, which notify their subscribers only when a re-evaluation changes the result;
    - the `reactive` marker on functions.
- **Reactivity-lifting rewrite** (`pulse/transform.ts`, `Transform` in transform.dfy).
  - Inside a JSX expression container, a member, call or conditional expression is replaced by `reactive(() => e)`. An expression that is already such a call is left alone, and so is one whose container sits directly under such a call.
  - `traverse` is modelled twice:
    - as the pure rewrite `Process`/`Descend` of an AST value;
    - as the methods `Traverse`, `ReplaceLiftable`, `TraverseFields` and `TraverseValue`, which loop the way the source does (arrays from the end, the container's keys, then the node's entries). These are proved equal to the rewrite.
  - Idempotence, the wrapping rule and the pass-through of functions and plain expressions are proved about the rewrite.
- **Renderer** (`pulse/jsx-dev-runtime.ts`).
  - The host document is an abstract tree of element, text, comment and fragment nodes, addressed by identity (`Dom` in host.dfy).
  - `createNode`, its three subscription patches (text, region between comment markers, replace), `handleProps`, `renderElement` and `jsxDEV` are pure functions in `Runtime` (runtime.dfy). The `Renderer` class's methods perform the same steps in place and are proved equal to those functions.
  - The region patch remembers what the source remembers: the child nodes the new rendering had before it was inserted (`Runtime.RecordedAsWritten`). The corrected step, which remembers the nodes the insertion puts between the markers, is the separate function `Runtime.InsertRenderedCorrected`; only the lemmas of the second finding below use it.
  - What the functions do, branch by branch, is proved in `Behaviour` (behaviour.dfy) and, for string children, in `Children` (children.dfy).

Common helpers (`Option`, a JavaScript `Set` as an insertion-ordered duplicate-free sequence) are in common.dfy. JavaScript values are in values.dfy.

## Model

| member | source | states |
|---|---|---|
| Common.SetAdd | pulse/state.ts:149 | `Set.add`: the member is present afterwards, nothing else is added, an existing member keeps its place, a new one goes last, and the set stays duplicate-free |
| Common.SetDelete | pulse/state.ts:150 | `Set.delete`: the member is absent afterwards, every other membership is unchanged, and a present member shrinks the set by one |
| Common.SetAddAll | pulse/state.ts:179-184 | adding a list of members yields exactly the old members and the added ones, with the old ones as a prefix |
| Scheduling.Enqueue | pulse/state.ts:9-22 | scheduling into one tier changes only that tier, puts the task in it, and keeps every tier a set |
| Scheduling.EnqueueAllWellFormed | pulse/state.ts:2-4 | whatever is scheduled, each tier stays duplicate-free |
| Scheduling.ScheduleTwiceKeepsOneCopy | pulse/state.ts:9-22 | scheduling the same task twice into the same tier before a drain is the same as scheduling it once |
| Scheduling.EnqueueAllConcat | pulse/state.ts:9-22 | making the requests `a` and then `b` is making `a + b` |
| Scheduling.DrainRunsEachTaskOncePerTier | pulse/state.ts:38-57 | a drain runs each snapshotted task exactly once per tier it was scheduled into |
| Scheduling.Scheduler.constructor | pulse/state.ts:1-7 | empty tiers, both flags clear, no drain armed |
| Scheduling.Scheduler.Schedule | pulse/state.ts:9-12 | adds to the normal tier, arms a drain unless one is armed, and keeps at most one drain armed |
| Scheduling.Scheduler.ScheduleMicro | pulse/state.ts:14-17 | the same for the micro tier |
| Scheduling.Scheduler.ScheduleBatch | pulse/state.ts:19-22 | the same for the batch tier |
| Scheduling.Scheduler.ScheduleRun | pulse/state.ts:24-31 | arms a drain exactly when none is armed; afterwards exactly one is |
| Scheduling.Scheduler.Drain | pulse/state.ts:27-30 | the armed callback clears `isScheduled` and runs `run`; a new drain is armed exactly when a task scheduled something |
| Scheduling.Scheduler.Run | pulse/state.ts:33-60 | ignored while running; otherwise it runs micro, then normal, then batch tasks in insertion order, and records every failing task. The new tiers hold exactly what the tasks scheduled |
| Scheduling.Scheduler.RunSnapshot | pulse/state.ts:46-57 | the three snapshots run one after another, starting from cleared tiers |
| Scheduling.Scheduler.RunEach | pulse/state.ts:47-49 | runs every task of a snapshot in order, including those after a throwing one |
| Scheduling.Scheduler.Submit | pulse/state.ts:9-22 | a scheduling call made by a running task enqueues into its tier |
| Scheduling.Scheduler.RunTaskSafe | pulse/state.ts:62-69 | runs the task and makes its scheduling calls; an exception is recorded and does not propagate |
| Scheduling.DrainScenario | pulse/state.ts:33-69 | the micro task runs first and a normal task scheduled twice runs once. A throwing task does not stop the batch task, and what it scheduled waits, armed, for the next drain |
| State.NotifyAll | pulse/state.ts:111-113 | one call per subscriber, in set order, each with the same new and old value |
| State.BatchedAssignments | pulse/state.ts:121-130 | writes that all equal the value change nothing. Otherwise the batch ends on the last value written and saves the value from before the first write |
| State.Register | pulse/state.ts:141-151 | subscribing adds the callback, or the one first registered under a non-empty key seen before. That callback is the one the unsubscribe function removes |
| State.RepeatedKeyedSubscribe | pulse/state.ts:142-149 | subscribing any number of times under one key leaves the cell as the first subscription did |
| State.BumpCounts | pulse/state.ts:179-184 | a tracked read adds one to the counter of each computed cell under construction and leaves every other counter |
| State.Tracker.constructor | pulse/state.ts:178 | the stack starts empty |
| State.Tracker.Track | pulse/state.ts:179-184 | `updateSubscribers`: every hook on the stack joins the subscriber set, and its counter is bumped |
| State.Cell.constructor | pulse/state.ts:97-103 | a new cell holds the initial value, with no subscribers and nothing queued |
| State.Cell.Read | pulse/state.ts:133-136 | the tracked read returns the value and subscribes every computed cell under construction |
| State.Cell.Peek | pulse/state.ts:140 | returns the value and changes nothing |
| State.Cell.Write | pulse/state.ts:121-130 | an equal write changes nothing. Otherwise the cell takes the value, the first write of a batch saves the old one, and a flush is queued |
| State.Cell.Notify | pulse/state.ts:105-108 | queues the flush unless one is queued; afterwards exactly one is |
| State.CalledUntilThrowPrefix | pulse/state.ts:111-113 | the subscribers `forEach` calls are a prefix of the set, in order, and none but the last of them threw |
| State.CalledUntilThrowStops | pulse/state.ts:111-113 | the last subscriber called threw exactly when some subscriber throws; when none throws, every subscriber is called |
| State.CalledPrefix | pulse/state.ts:111-113 | when the `n`-th subscriber is the first that throws, or none of all `n` does, the first `n` are the ones called |
| State.CallEach | pulse/state.ts:111-113 | the `forEach` loop calls the subscribers in order with the same new and old value, stops at the first that throws, and reports whether one threw |
| State.Cell.Flush | pulse/state.ts:108-115 | clears the flag, then calls the subscribers with the current value and the saved old value until one throws. When none threw the saved value is cleared; when one threw the exception leaves the saved value in place and the later subscribers uncalled |
| State.Cell.Subscribe | pulse/state.ts:141-151 | the subscriber set and key map become what `Register` says |
| State.Cell.Unsubscribe | pulse/state.ts:150 | removes the registered callback; reports whether it was present |
| State.Computed.constructor | pulse/state.ts:189-206 | a fresh re-evaluation hook, pushed on the stack with a zero counter |
| State.Computed.Finish | pulse/state.ts:207-209 | after `fn` returns, `isReactive` holds exactly when some tracked read happened, and the hook is popped |
| State.Computed.Abort | pulse/state.ts:206-209 | corrected behaviour: when `fn` throws, the hook is popped |
| State.Computed.Read | pulse/state.ts:212-215 | the tracked read of a computed cell, as for a state cell |
| State.Computed.Peek | pulse/state.ts:230 | returns the result and changes nothing |
| State.Computed.Reevaluate | pulse/state.ts:194-202 | keeps the old result as `oldValue`. A throwing `fn` propagates and leaves the result as it was; otherwise the result is `fn`'s value, and subscribers hear `(new, old)` exactly when the result changed, until one throws, whose exception propagates. The tracker is not touched, so no dependency is re-registered |
| State.Computed.Subscribe | pulse/state.ts:216-227 | as `Register` says |
| State.Computed.Unsubscribe | pulse/state.ts:228 | removes the registered callback |
| State.Reactive | pulse/state.ts:241-248 | the marked function is recognised by `isReactiveFunction` and is the same function |
| State.ThrowingSubscriberScenario | pulse/state.ts:105-130 | of two subscribers, the first throws during the flush: the second is not called and the saved old value stays. The next batch saves its own old value, and its flush calls both |
| State.ThreeWritesOneNotification | pulse/state.ts:105-130 | three writes before the flush queue one flush and give one call with the last value and the value before the batch |
| State.TrackedComputed | pulse/state.ts:204-209 | a computed cell that reads a state cell is reactive, is subscribed to it, and leaves the stack empty; an equal write queues nothing |
| State.PeekingComputed | pulse/state.ts:230 | a computed cell that only peeks is not reactive and is subscribed to nothing |
| State.AbandonedEvaluationScenario | pulse/state.ts:206-209 | as written, a throwing `fn` leaves its hook on the stack, and a later unrelated read subscribes it |
| State.AbortedEvaluationScenario | pulse/state.ts:206-209 | with the hook popped on a throw, a later read subscribes nothing |
| Values.Decimal | pulse/jsx-dev-runtime.ts:114 | the decimal text of a number is non-empty, all digits, with no leading zero |
| Values.DecimalRoundTrip | pulse/jsx-dev-runtime.ts:114 | reading the digits back gives the number |
| Transform.ReactiveCall | pulse/transform.ts:121-136 | the wrapper built around an expression is recognised by `isReactiveWrapper` |
| Transform.WrapAstNode | pulse/transform.ts:221-241 | no result for any wrapper but the arrow. A reactive call is returned as is; anything else becomes an arrow, not a reactive call, with no parameters, an expression body equal to the node, and not async |
| Transform.Process | pulse/transform.ts:51-178 | the rewrite of a node keeps its kind and its keys, in order |
| Transform.ProcessField | pulse/transform.ts:153-176 | the rewrite of a property keeps its key |
| Transform.DescendWrapper | pulse/transform.ts:164-175 | traversing a freshly built wrapper rewrites only its body, as the body of an arrow that is not a reactive call |
| Transform.Traverse | pulse/transform.ts:56-176 | the in-place traversal of one node computes the rewrite `Process` |
| Transform.ReplaceLiftable | pulse/transform.ts:64-150 | the container's pass replaces exactly the liftable values not already wrapped and not under a reactive call |
| Transform.TraverseFields | pulse/transform.ts:153-176 | the entries pass traverses every property except `parent` and `loc`, with the node as parent |
| Transform.TraverseValue | pulse/transform.ts:56-59 | arrays walked from the end, untyped items and primitives skipped: the result is the rewrite `Descend` |
| Transform.TransformTsx | pulse/transform.ts:32-183 | any parse error gives a failure carrying the errors and no output; otherwise the body is rewritten |
| Transform.DescendShape | pulse/transform.ts:51-178 | the rewrite keeps a value's kind, its strings, and whether it is liftable or a reactive call |
| Transform.WrapperKept | pulse/transform.ts:105-112 | a node is a reactive call after the rewrite exactly when it was one before |
| Transform.NameKept | pulse/transform.ts:214-218 | an identifier is named `reactive` after the rewrite exactly when it was before |
| Transform.ContainerRule | pulse/transform.ts:95-144 | a container property becomes a wrapper around its rewritten value exactly when it is liftable, not already wrapped and not under a reactive call; otherwise it is only rewritten inside |
| Transform.FunctionsNotWrapped | pulse/transform.ts:70-82 | arrow and function expressions in a container are never wrapped |
| Transform.PlainUnchanged | pulse/transform.ts:146 | a subtree holding no container (identifiers, literals, templates, binary expressions) passes through unchanged |
| Transform.DescendIdempotent | pulse/transform.ts:99-112 | rewriting the output again changes nothing |
| Transform.ProcessIdempotent | pulse/transform.ts:99-112 | the same for one node |
| Transform.ProgramIdempotent | pulse/transform.ts:183 | the same for a whole program body |
| Transform.AttributeRewrite | pulse/transform.ts:153-176 | rewriting an attribute rewrites only its value |
| Transform.ContainerExample | pulse/transform.ts:95-138 | a container around a plain expression is lifted exactly when the expression is a member, call or conditional expression |
| Transform.ValueAttributeLifted | pulse/transform.ts:95-138 | `value={count.value}` becomes `value={reactive(() => count.value)}` |
| Transform.HandlerAttributeKept | pulse/transform.ts:70-82 | `onInput={(e) => ...}` is unchanged |
| Transform.CallHandlerLifted | pulse/transform.ts:84-138 | `onClick={f(...)}` is lifted: the `on*` attribute case is never reached from a container value |
| Dom.CreateFacts | pulse/jsx-dev-runtime.ts:58 | a created node is new, has no parent, and changes no other node |
| Dom.DetachAllFacts | pulse/jsx-dev-runtime.ts:86 | after the removals every removed node has no parent, and every list only lost those nodes |
| Dom.DetachNext | pulse/jsx-dev-runtime.ts:86 | removing the nodes one at a time is removing them all |
| Dom.InsertFacts | pulse/jsx-dev-runtime.ts:91 | inserting keeps the document well formed and only grows it |
| Dom.InsertBefore | pulse/jsx-dev-runtime.ts:91 | `insertBefore` throws exactly when the parent cannot hold children or the reference node is not its child |
| Dom.InsertMovesOut | pulse/jsx-dev-runtime.ts:91 | the inserted nodes leave every other parent |
| Dom.InsertPlacesBefore | pulse/jsx-dev-runtime.ts:91 | the inserted nodes, in order, stand right before the reference node |
| Dom.InsertKids | pulse/jsx-dev-runtime.ts:91 | the parent's children after an insertion are its children that do not move, with the moved nodes spliced in before the reference node |
| Dom.InsertKeepsSibling | pulse/jsx-dev-runtime.ts:91 | every child of the parent that does not move stays a child |
| Dom.InsertTextFacts | pulse/jsx-dev-runtime.ts:91 | inserting a text node before a child keeps the document well formed, makes it a child, keeps every other child and changes no leaf |
| Dom.InsertTextJustBefore | pulse/jsx-dev-runtime.ts:91 | the inserted text node stands immediately before the reference node |
| Dom.InsertKidsFrom | pulse/jsx-dev-runtime.ts:91 | after an insertion a node's children are its earlier children or nodes the insertion moved |
| Dom.InsertKeepsDetached | pulse/jsx-dev-runtime.ts:91 | a node without a parent that the insertion does not move keeps having no parent |
| Dom.InsertLeafKeepsDetached | pulse/jsx-dev-runtime.ts:91 | inserting a single non-fragment node gives no other parentless node a parent |
| Dom.DetachAllDetaches | pulse/jsx-dev-runtime.ts:86 | after the removals no removed node is a child of any node |
| Dom.AppendPlacesLast | pulse/jsx-dev-runtime.ts:48 | appended nodes end the parent's list, in order |
| Dom.AppendEmptiesFragment | pulse/jsx-dev-runtime.ts:149 | appending a fragment moves its children and leaves it empty |
| Dom.AppendDetached | pulse/jsx-dev-runtime.ts:83 | appending a new non-fragment node adds exactly that node at the end |
| Dom.PrependDetached | pulse/jsx-dev-runtime.ts:81 | inserting before the first child (or appending to an empty list) puts the node first |
| Dom.ReplaceFacts | pulse/jsx-dev-runtime.ts:100 | `replaceWith` keeps the document well formed; it changes nothing for a node without a parent, and otherwise splices the new nodes in |
| Dom.ReplacePlaces | pulse/jsx-dev-runtime.ts:133 | the new nodes stand where the replaced node stood, and it is gone |
| Dom.ReplaceByDetached | pulse/jsx-dev-runtime.ts:133 | replacing by a new non-fragment node swaps exactly that position |
| Dom.SetText | pulse/jsx-dev-runtime.ts:76 | a text node's text becomes the string; nothing else changes |
| Dom.SetAttribute | pulse/jsx-dev-runtime.ts:203 | an element's attribute becomes the string; nothing else changes |
| Dom.AddListener | pulse/jsx-dev-runtime.ts:200 | throws exactly for a primitive listener; `null`/`undefined` are ignored; otherwise the listener is added once |
| Runtime.Classify | pulse/jsx-dev-runtime.ts:62-163 | the branch is the first test that holds, in source order, each as an if-and-only-if: an element, a reactive function, a string or number (including `0` and `""`), a reactive value, an array, a falsy value, anything else |
| Runtime.Attach | pulse/jsx-dev-runtime.ts:71-107 | rendering a reactive value adds exactly one subscription |
| Runtime.EventName | pulse/jsx-dev-runtime.ts:198 | the event name is the key without `on`, lower-cased letter by letter |
| Runtime.LowerChar | pulse/jsx-dev-runtime.ts:198 | an upper-case ASCII letter becomes the lower-case letter at the same place in the alphabet; any other character stays |
| Runtime.EventNameClick | pulse/jsx-dev-runtime.ts:198 | the key `onClick` names the event `click` |
| Runtime.Renderer.CreateNode | pulse/jsx-dev-runtime.ts:57-170 | `createNode` in place computes `Render` |
| Runtime.Renderer.CreateFor | pulse/jsx-dev-runtime.ts:60-169 | the branch taken computes `Dispatch` |
| Runtime.Renderer.CreateComputed | pulse/jsx-dev-runtime.ts:67-110 | computes `RenderComputed` |
| Runtime.Renderer.CreateState | pulse/jsx-dev-runtime.ts:118-143 | computes `RenderState` |
| Runtime.Renderer.CreateList | pulse/jsx-dev-runtime.ts:146-153 | computes `RenderList` |
| Runtime.Renderer.CreateItems | pulse/jsx-dev-runtime.ts:147 | each item rendered in order |
| Runtime.Renderer.AppendNodes | pulse/jsx-dev-runtime.ts:149 | appending the nodes one by one |
| Runtime.Renderer.Subscribe | pulse/jsx-dev-runtime.ts:71-107 | the subscription chosen by `Attach` |
| Runtime.Renderer.RemoveNodes | pulse/jsx-dev-runtime.ts:86 | removing the nodes one by one is `DetachAll` |
| Runtime.Renderer.Notify | pulse/jsx-dev-runtime.ts:75-106 | a subscription callback computes `Apply`, whose region step remembers the child nodes of the new rendering, as the source does |
| Runtime.Renderer.SetProp | pulse/jsx-dev-runtime.ts:184-204 | one prop computes `PropStep` |
| Runtime.Renderer.HandleProps | pulse/jsx-dev-runtime.ts:177-205 | the props in order, stopping at the first that throws |
| Runtime.Renderer.RenderElement | pulse/jsx-dev-runtime.ts:46-49 | `renderElement` computes `RenderChild` |
| Runtime.Renderer.JsxDev | pulse/jsx-dev-runtime.ts:10-39 | `jsxDEV` computes `Jsx` |
| Runtime.Renderer.RenderElements | pulse/jsx-dev-runtime.ts:34-36 | the children rendered in order |
| Runtime.PropsStopAtThrow | pulse/jsx-dev-runtime.ts:184 | once a prop threw, no later prop changes anything |
| Runtime.AppendAllFacts | pulse/jsx-dev-runtime.ts:149 | appending keeps the document well formed and only grows it |
| Runtime.BracketFacts | pulse/jsx-dev-runtime.ts:79-83 | so does bracketing with the markers |
| Runtime.AttachFacts | pulse/jsx-dev-runtime.ts:71-107 | subscribing returns the rendered node, keeps the document well formed, and only adds |
| Runtime.RenderFacts | pulse/jsx-dev-runtime.ts:57-170 | `createNode` returns a node of the document, keeps it well formed, and only adds nodes, subscriptions and cells |
| Runtime.DispatchFacts | pulse/jsx-dev-runtime.ts:60-169 | the same for each branch |
| Runtime.RenderItemsFacts | pulse/jsx-dev-runtime.ts:147 | the same for each item of an array |
| Runtime.ApplyFacts | pulse/jsx-dev-runtime.ts:75-139 | a subscription callback keeps the document well formed and changes no subscription but its own, whose source stays |
| Runtime.ReplaceStepFacts | pulse/jsx-dev-runtime.ts:96-106 | the same for the replace patch |
| Runtime.RegionStepFacts | pulse/jsx-dev-runtime.ts:84-92 | the same for the region patch |
| Runtime.PropStepFacts | pulse/jsx-dev-runtime.ts:184-204 | one prop keeps the document well formed and only adds |
| Runtime.ApplyPropsFacts | pulse/jsx-dev-runtime.ts:177-205 | the same for all props |
| Runtime.RenderChildrenFacts | pulse/jsx-dev-runtime.ts:34-36 | the same for all children |
| Runtime.JsxFacts | pulse/jsx-dev-runtime.ts:10-39 | the same for `jsxDEV` |
| Children.AppendedTextFacts | pulse/jsx-dev-runtime.ts:46-49 | a string child becomes a new text node appended after the element's earlier children; every existing leaf is kept |
| Behaviour.RenderText | pulse/jsx-dev-runtime.ts:113-115 | a string or number, `0` and `""` included, becomes a new detached text node of its `toString()`; nothing else changes but the unused fragment |
| Behaviour.RenderElementAsIs | pulse/jsx-dev-runtime.ts:62-64 | an element is returned as it is |
| Behaviour.RenderEmpty | pulse/jsx-dev-runtime.ts:155-169 | a falsy value, an unhandled value, a throwing reactive function or an exhausted call depth gives the new empty fragment |
| Behaviour.BracketShape | pulse/jsx-dev-runtime.ts:79-83 | the fragment's nodes end up between a new "fragment-start" and a new "fragment-end" comment |
| Behaviour.BracketStart | pulse/jsx-dev-runtime.ts:80-81 | the start marker goes before the first node |
| Behaviour.BracketEnd | pulse/jsx-dev-runtime.ts:82-83 | the end marker goes last |
| Behaviour.RenderListFragment | pulse/jsx-dev-runtime.ts:146-153 | an array renders as the fragment made for it |
| Behaviour.RenderTextList | pulse/jsx-dev-runtime.ts:146-153 | an array of strings and numbers renders as its fragment whose children are new text nodes, one per item and in item order, each holding the item's text; no subscription or cell is made |
| Behaviour.RenderTextItems | pulse/jsx-dev-runtime.ts:147 | rendering the items in order gives, per item, an unused fragment and then a text node of its string; the text nodes come back in item order and no existing node changes |
| Behaviour.AppendLeaves | pulse/jsx-dev-runtime.ts:149 | appending distinct text nodes that are not yet children puts them after the existing children, in order, and changes no leaf |
| Behaviour.ComputedText | pulse/jsx-dev-runtime.ts:67-77 | a reactive function returning a string or number makes one computed cell, a text node of the result, and a text subscription on that node |
| Behaviour.AttachFragment | pulse/jsx-dev-runtime.ts:78-92 | a fragment of a reactive function is bracketed and subscribed as a region holding its nodes, ending at the end marker |
| Behaviour.ComputedRendersResult | pulse/jsx-dev-runtime.ts:67-69 | a reactive function renders its result through one new computed cell |
| Behaviour.StateText | pulse/jsx-dev-runtime.ts:118-126 | a reactive value holding a string or number gets a text node and a text subscription |
| Behaviour.StateFragment | pulse/jsx-dev-runtime.ts:127-140 | a reactive value holding an array gets no markers: a replace subscription on its fragment |
| Behaviour.ApplyText | pulse/jsx-dev-runtime.ts:75-77 | a text subscription sets the same node's text to `String(value)` and creates nothing |
| Behaviour.ApplyAttribute | pulse/jsx-dev-runtime.ts:192-194 | an attribute subscription sets the attribute to the new value's string |
| Behaviour.ReplaceRenderedPlaces | pulse/jsx-dev-runtime.ts:96-106 | the new node takes the current node's place and becomes the current node |
| Behaviour.ReplaceOnFragment | pulse/jsx-dev-runtime.ts:130-139 | as written, a replace subscription whose current node is a fragment still renders the new value: the result is exactly what rendering gives, with its new nodes, cells and subscriptions (an array item already on the page moves into the new, detached fragment). But `replaceWith` throws and the error is caught, so nothing is replaced, the subscription keeps its fragment and nothing throws |
| Behaviour.InsertRenderedPlaces | pulse/jsx-dev-runtime.ts:89-91 | when the end marker is a child of the element, the region patch remembers the child nodes the new rendering had, then inserts the rendering before the end marker without throwing |
| Behaviour.InsertRenderedThrows | pulse/jsx-dev-runtime.ts:89-91 | when the end marker is no longer a child of the element, the child nodes of the rendering are remembered first, then the insertion throws and the document stays |
| Behaviour.InsertRenderedFragment | pulse/jsx-dev-runtime.ts:89-91 | when the rendering is a fragment, its child nodes are the nodes the insertion moves, so the record as written and the corrected one agree |
| Behaviour.RegionTextStep | pulse/jsx-dev-runtime.ts:84-91 | a region update with a string or number removes the remembered nodes, so that none of them has a parent afterwards. It inserts a new text node of the value's string immediately before the end marker and remembers no node, since a text node has no child nodes. The document stays well formed, and every other child of the element and every leaf is kept |
| Behaviour.RemovedDetached | pulse/jsx-dev-runtime.ts:86-88 | the removed nodes still have no parent once the new rendering's fragment and text node exist |
| Behaviour.InsertTextBefore | pulse/jsx-dev-runtime.ts:89-91 | inserting a text node before a child of the element does not throw, remembers no node, places it immediately before that child, and leaves every other parentless node without a parent |
| Behaviour.StaleTextKept | pulse/jsx-dev-runtime.ts:86 | after two such updates, the first text node, which nothing remembered, is still in the element beside the second |
| Behaviour.RegionKeepsStaleText | pulse/jsx-dev-runtime.ts:84-91 | as written, two region updates with strings leave two text nodes in the element: the first holding the old text, the second the new |
| Behaviour.InsertStandsBefore | pulse/jsx-dev-runtime.ts:86-91 | the nodes an insertion moves stand, in order, right before the end marker, and removing them takes every one out of the page |
| Behaviour.RecordedRemoved | pulse/jsx-dev-runtime.ts:86-91 | corrected: the region step that remembers the moved nodes remembers exactly those, they stand before the end marker, and the next update removes every one of them |
| Behaviour.PropPlain | pulse/jsx-dev-runtime.ts:203 | a plain prop only sets its attribute to the value's string |
| Behaviour.PropState | pulse/jsx-dev-runtime.ts:189-195 | a reactive prop sets the attribute from its current value and subscribes the attribute |
| Behaviour.PropComputed | pulse/jsx-dev-runtime.ts:185-195 | a reactive-function prop becomes a new computed cell whose result sets the attribute and which is subscribed; a throw stops `handleProps` |
| Behaviour.PropListener | pulse/jsx-dev-runtime.ts:197-203 | an `on…` key with a function adds the listener for the lower-cased name and also sets the attribute |
| Behaviour.PropRefused | pulse/jsx-dev-runtime.ts:197-201 | an `on…` key with a primitive value throws and changes nothing |
| Behaviour.JsxFalsy | pulse/jsx-dev-runtime.ts:14-16 | a falsy element type returns the children unchanged and creates nothing |
| Behaviour.JsxComponent | pulse/jsx-dev-runtime.ts:18-20 | a function element type returns the function applied to the props without `children` |
| Behaviour.JsxElement | pulse/jsx-dev-runtime.ts:22-38 | any other type creates the element first and then handles the props. A throwing prop propagates; otherwise the children are rendered in order, a lone child taken as a list of one, and the element is returned |
| Behaviour.RenderChildText | pulse/jsx-dev-runtime.ts:46-49 | `renderElement` of a string changes only the document, appending a text node |
| Behaviour.RenderChildrenTexts | pulse/jsx-dev-runtime.ts:34-36 | string children are appended one after the other, as `AppendTexts` says |
| Behaviour.StringChild | pulse/jsx-dev-runtime.ts:46-49 | one string child appends exactly one new text node after the earlier children and changes no subscription |

## Left out

- `createProxyIfObject` (nested writes through a `Proxy`): cells take whole-value writes only, since property interception cannot be expressed here.
- `queueMicrotask` and the event loop: the armed drain is the explicit method `Scheduling.Scheduler.Drain`, and a queued state flush is `State.Cell.Flush`, with counters of armed callbacks.
- What a task does is a parameter, an `effect` giving the scheduling calls it makes and whether it throws. A subscriber call is recorded in the cell's `log`, and whether a subscriber throws is the parameter `throws`; what else a subscriber does is not modelled (see the next two lines).
- State.Cell.Flush: a subscriber that writes the same cell during the flush is not modelled. In the source its write saves a new old value and schedules a flush, and the assignment at state.ts:114 then wipes that saved value, so the next flush reports `undefined` while a flush is scheduled; `Cell.Valid`'s `scheduled ==> oldVal.Some?` holds only without such writes. A subscriber added during the loop, which `forEach` also visits, is not modelled either.
- State.Computed.Reevaluate: a subscriber that writes back into a cell during the notification loop is not modelled, for the same reason.
- The state cells and the renderer are not connected. The renderer's `Renderer.Notify` is called by its caller with the new value, and a computed cell made by the renderer is only counted.
- The parser, the printer and the TSX-to-JS lowering of `transformTsx`, its options and its debug log: the rewrite takes the parse errors and the program body and returns the rewritten body.
- Transform.TraverseValue: the source sets a `parent` reference on every child before descending. The tree here is a value without back references, so those properties are not added. The order in which siblings are visited (from the end) is kept in the loop, but no lemma states it: no sibling's rewrite reads or changes another.
- The real DOM:
  - the document is an abstract tree of nodes addressed by identity;
  - `replaceWith` on a fragment throws, as in the DOM;
  - hierarchy errors (inserting a node into its own descendant) and invalid tag names in `createElement` are not modelled.
- The `SYM_RENDER` re-render closure (never called), `Object.assign(currentNode, { isMemo: true })` and the `console` diagnostics.
- jsx-dev-runtime.ts:1 imports `isReactive`, but state.ts exports only `isReactiveState`, so as written the module would fail to link. The model reads the test as `isReactiveState`.
- transform.test.ts expects the rewrite to produce `computed(() => …)`, while transform.ts:121-136 builds `reactive(() => …)`. The model follows the code.
- Values.ToJsString: `String(node)` of a host node is the constant "[object HTMLElement]" whatever the node's kind; the DOM gives `[object Text]`, `[object Comment]` or a tag-specific name.
- Dom.SetAttribute: the attribute name is stored as given; HTML's lower-casing of attribute names is not modelled.
- State.Reactive: the source marks the function object in place and returns the same object; the model returns a marked value, so other references to the unmarked function are not modelled.
- Values.ToJsString: `String(fn)` of a function is its source text, which the model does not have; it is the constant "function". Numbers are integers: floating point is not modelled.
- Runtime.EventName: `toLowerCase` is modelled for ASCII letters only.
- `Object.entries` order is taken to be the order of the props and fields sequences.
- Runtime.Render: the `fuel` argument bounds how deeply reactive functions may nest. Running out gives the empty fragment, as the source's `catch` does when the call stack overflows. A computed cell's function is the parameter `eval`, and a component is the parameter `call`.
- Behaviour.RenderChildrenTexts: the shape of the document after `n` children is characterised for string children only. It is stated per child by `Behaviour.StringChild`, and as `AppendTexts` for the whole run. Other children are covered by the invariants of `Runtime.RenderChildrenFacts`.
- Behaviour.RenderTextList: which children an array's fragment gets is stated for arrays of strings and numbers only. For other items, `Runtime.RenderItemsFacts` and `Runtime.DispatchFacts` state the invariants (a well-formed document that only grows).
- `createNode` creates its fragment before every branch, so the model's document also holds the unused empty fragments.
- Where the repository's own description and its code differ, the model follows the code:
  - only arrow and function values are exempt from lifting, so `onClick={f()}` is lifted (`Transform.CallHandlerLifted`);
  - a reactive function is subscribed whether or not its computed cell turned out reactive;
  - an array is bracketed by markers only when a reactive function rendered it (`Behaviour.StateFragment`);
  - `handleProps` has no `style` or `undefined` special case.
- Behaviour.ReplaceOnFragment: a reactive value first rendered as a fragment (an array or an empty value) never updates the page, because of the caught `replaceWith` error. Each update still renders the new value, and the nodes, cells and subscriptions it creates are left unused; an array item that was on the page moves into the detached fragment. This is stated as the source behaves, not corrected, like the region patch's record.

## Findings

| source | as written | input that shows it | evidently intended | confidence | as-written member | corrected member |
|---|---|---|---|---|---|---|
| pulse/state.ts:206-209 | `computedStack.add(subscribe); result = fn(); … computedStack.delete(subscribe)` has no `try`/`finally` | a reactive function that throws while rendered (the throw is caught by `createNode`), followed by any tracked read of any cell | the hook leaves the stack whether `fn` returns or throws | not executed | State.AbandonedEvaluationScenario | State.AbortedEvaluationScenario |
| pulse/jsx-dev-runtime.ts:90 | the region patch remembers `currentNode.childNodes` of the new rendering | a reactive function whose result goes from `[]` to `"a"` to `"b"`: the text node `"a"` has no child nodes, so it is never removed and both texts end up between the markers | remember the nodes the insertion puts between the markers (a fragment's children, or the node itself) | not executed | Behaviour.RegionKeepsStaleText | Behaviour.RecordedRemoved |
