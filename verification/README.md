# A Dafny model of the cloud service's algorithms

The service flies a drone for an internal platform. Most of it is messaging; the parts modelled here are
the ones that decide something.

- **3D map** (`Polygon`, `Grid`, `AreaChoice`, `BlockMap`): two point-in-polygon tests with opposite
  half-open rules, the bounding box that prefilters one of them, the rasteriser that stores area indices
  per block, the clamped obstacle query and the sweep along a line. Coordinates are reals.
- **Message conversion** (`Base64`, `JsonTree`): the base64 codec and the recursive conversion between
  messages and JSON trees over message descriptors. Strings are byte strings.
- **Height table** (`HeightTable`): the jumping search over the table sorted by x.
- **Lists and threads** (`DoubleList`, `ThreadPool`, `RequestMatcher`, `ContinuousMove`): the intrusive
  circular list on the heap; the thread pool, the request/response matcher and the continuous-move
  controller as state machines whose steps are the source's critical sections, reads and sends.
- **Tables and detectors** (`SpeedTables`, `EventTables`, `Landing`, `PlateDistance`).

`dafny verify dfyconfig.toml` checks the whole project. `Reals` and `Wrappers` hold shared helpers.

## Where the code does not do what one would expect

Each of these is stated as a lemma, with the exact condition where there is one.

- The two polygon tests differ on boundary points (`Polygon.Agreement`, `Polygon.BoundaryDisagreement`).
- A no-fly area is overridden by a later area with any greater limit, also 0, which the header describes
  as "no limit" (`AreaChoice.NoFlyKeptIff`).
- The header calls a positive `height_limit` a flight height limit. `check_block_around` treats it as an
  obstacle below that height, and `check_fly_resdiction` as a restriction above it; the model follows
  `check_block_around` (`BlockMap.ClearMeans`).
- The jumping search never ends for a query beyond the last x (`HeightTable.LeavesIff`), and the stride
  divides by zero on a table with constant x (`HeightTable.StrideLegal`).
- The base64 decoder accepts `=` anywhere (`Base64.AcceptedIff`).
- A member name the message does not have ends the JSON conversion silently, and what follows it is lost
  (`JsonTree.UnknownStops`).
- A plate without letters and digits is at distance 0 from every plate with the same Chinese characters
  (`PlateDistance.ZeroIff`).
- A pool without workers drops what it accepted (`ThreadPool.DestructorDrains`).
- A key shared by two requests in flight, as the method-name keys of the drc commands allow, can lose a
  response. Over a run the pending map stays right exactly if no key is registered while a live request has
  it (`RequestMatcher.SturdyRunIff`); that the key is not in the map is not enough
  (`RequestMatcher.SharedKeyLosesAnswer`, `RequestMatcher.AbsentKeyLosesAnswer`).
- A mover that stops because the aircraft was taken over sends no centre command: its direction stays the
  last deflection until a handler runs, exactly if it had sent a command
  (`ContinuousMove.TakeoverLeavesDeflection`, `ContinuousMove.TakeoverHappens`).
- An area that lies between the corners of the blocks marks none of them, no-fly or not
  (`BlockMap.NarrowIsMissed`); an area as wide as a block is never missed (`BlockMap.ThickIsMarked`).
- With a detection distance of 0 the sweep along a line never ends once its first sample is clear
  (`BlockMap.MapStore.SweepEndsIff`).
- The loader of the similar characters passes over every entry j of letter i with j < i, and over whole
  letters: it visits every entry exactly if only the first letter has any
  (`PlateDistance.EverythingVisitedIff`, `PlateDistance.EverythingLoadedIff`).
- The default build numbers its events by one set of lists and names them by another, so that enumerators
  get other events' names (`EventTables.NamesAgreeIff`, `EventTables.DefaultBuildDisagrees`).

## Model

| member | source | states |
|---|---|---|
| Polygon.TogglesMeans | common/hdmap/pf_map_block_3d.cpp:222-234 | an edge flips the `pnpoly` answer exactly when it covers the point's height under lowest <= y < highest and some point of it lies on the ray strictly right of the point |
| Polygon.RayCrossesMeans | common/hdmap/pf_map_block_3d.cpp:1142-1173 | `isRayCrossSeg` holds exactly when the edge covers the height under lowest < y <= highest and some point of it lies on the ray at the point or right of it; the six early returns and the division lose nothing |
| Polygon.PnPoly | common/hdmap/pf_map_block_3d.cpp:222-234 | the loop computes the parity of the flipping edges of the closed cycle |
| Polygon.IsInPolygon | common/hdmap/pf_map_block_3d.cpp:1184-1199 | the loop computes the parity of the crossed edges of the closed cycle |
| Polygon.EdgeParity | common/hdmap/pf_map_block_3d.cpp:1142-1199 | per edge the two tests differ exactly by the on-ray flags of its endpoints and by whether the point lies on the edge, its low end excepted |
| Polygon.Telescopes | common/hdmap/pf_map_block_3d.cpp:1184-1199 | flags that change from vertex to vertex cancel round a closed cycle |
| Polygon.Agreement | common/hdmap/pf_map_block_3d.cpp:222-234 | for every vertex list and every point the two point-in-polygon tests agree if and only if the point lies on an even number of edges (low ends excepted) |
| Polygon.AgreementOffBoundary | common/hdmap/pf_map_block_3d.cpp:1184-1199 | off the boundary the two tests always agree |
| Polygon.BoundaryDisagreement | common/hdmap/pf_map_block_3d.cpp:1184-1199 | a concrete square and boundary point on which they differ |
| Polygon.StraddledEven | common/hdmap/pf_map_block_3d.cpp:222-234 | a closed cycle passes any height an even number of times |
| Polygon.OutsideBox | common/hdmap/pf_map_block_3d.cpp:239-249 | outside any box that holds the vertices `pnpoly` answers no, on all four sides |
| Grid.SquareInWindow | common/hdmap/pf_map_block_3d.cpp:707-743 | despite truncation towards zero and clamping, the cell of every on-map point of the queried square is in the window, and an error return means no point of the square is on the map |
| Grid.WindowNonEmpty | common/hdmap/pf_map_block_3d.cpp:715-743 | a window that is not rejected asks about at least one block, and only about blocks of the map |
| Grid.WindowIsMeeting | common/hdmap/pf_map_block_3d.cpp:710-743 | the clamped window asks about exactly the blocks of the grid that meet the square, the first row and column reaching one block further out |
| Grid.OffGridIff | common/hdmap/pf_map_block_3d.cpp:715-725 | the error return is taken exactly when no block of the grid meets the square |
| Grid.SmallerWindow | common/hdmap/pf_map_block_3d.cpp:707-743 | a smaller square asks about no further cells |
| Grid.SampleCovers | common/hdmap/pf_map_block_3d.cpp:836-851 | the square round a sample covers what is near the line at another distance, for any unit direction, if the slack allows |
| Grid.TruncMeans | common/hdmap/pf_map_block_3d.cpp:710-713 | the cell index is the nearest integer towards zero, on both sides of it |
| Grid.FloorDrops | common/hdmap/pf_map_block_3d.cpp:836-862 | each turn of the real-valued sweep loop uses up one unit of an integer measure |
| AreaChoice.ChoiceStep | common/hdmap/pf_map_block_3d.cpp:266-296 | offering one more area keeps the declarative choice of restriction index |
| AreaChoice.ChoiceUnique | common/hdmap/pf_map_block_3d.cpp:266-296 | that choice is unique, so it pins the stored index |
| AreaChoice.OfferAgain | common/hdmap/pf_map_block_3d.cpp:266-296 | the loop over the areas, started from the index it once ended with, ends with it again |
| AreaChoice.LimitOrderFree | common/hdmap/pf_map_block_3d.cpp:284-296 | with no no-fly area in reach the chosen limit does not depend on the order of the areas |
| AreaChoice.NoFlyKeptIff | common/hdmap/pf_map_block_3d.cpp:284-296 | a block reached by a no-fly area is marked no-fly if and only if no area after the last such one reaches it with a greater limit |
| AreaChoice.NoFlyDependsOnOrder | common/hdmap/pf_map_block_3d.cpp:284-296 | the same two areas in two orders: one order loses the no-fly mark |
| BlockMap.BoxHoldsVertices | common/hdmap/pf_map_block_3d.cpp:420-465 | the accumulated box holds every vertex and reaches no further than a vertex or its start value |
| BlockMap.VerticesInOrder | common/hdmap/pf_map_block_3d.cpp:428-471 | the vertices read are exactly the points of the lines that parse, in line order |
| BlockMap.AreaAttached | common/hdmap/pf_map_block_3d.cpp:476-503 | an area that takes the vertices just read gets exactly them as its shape, a box that holds them, and keeps its limit |
| BlockMap.AreaKept | common/hdmap/pf_map_block_3d.cpp:430-435 | nodes read later leave the areas read before unchanged |
| BlockMap.MapStore.constructor | common/hdmap/pf_map_block_3d.cpp:189-214 | zeroed room for what the first pass counted: nodes, area records, and blocks without indices and heights |
| BlockMap.MapStore.AddRestriction | common/hdmap/pf_map_block_3d.cpp:519-590 | appends a record without vertices; every earlier area stays sound |
| BlockMap.MapStore.AddGround | common/hdmap/pf_map_block_3d.cpp:604-670 | the same for ground areas |
| BlockMap.MapStore.ReadVertices | common/hdmap/pf_map_block_3d.cpp:428-471 | appends exactly the vertices that parse, counts the malformed lines, returns their box |
| BlockMap.MapStore.LoadPoints | common/hdmap/pf_map_block_3d.cpp:416-510 | every area that refers to the element gets its vertices and box, all others keep theirs, an unused element is an error, and every area's box still holds its vertices |
| BlockMap.MapStore.CheckInArea | common/hdmap/pf_map_block_3d.cpp:239-249 | equals the plain polygon test of the area's vertices for every point |
| BlockMap.MapStore.SetBlockAreas | common/hdmap/pf_map_block_3d.cpp:255-327 | from fresh blocks, or blocks rasterised before over the same areas: afterwards every block holds exactly the restriction index and the ground index the areas determine and is otherwise unchanged, and every index names an area |
| BlockMap.AssignedAgain | common/hdmap/pf_map_block_3d.cpp:255-327 | rasterising a second time changes nothing |
| BlockMap.IndexMeans | common/hdmap/pf_map_block_3d.cpp:266-296 | a block's index is 0 if and only if no area has one of its four corners inside, else it names such an area, and with no no-fly area among them the earliest of greatest limit |
| BlockMap.VertexMarksFourBlocks | common/hdmap/pf_map_block_3d.cpp:260-282 | a grid vertex inside an area marks all four blocks that meet there |
| BlockMap.ThickIsMarked | common/hdmap/pf_map_block_3d.cpp:260-282 | the block of a point is marked wherever a box of the size of a block fits into the area round the point |
| BlockMap.FarIsUnmarked | common/hdmap/pf_map_block_3d.cpp:260-282 | an area whose box lies beside the closed block does not mark it |
| BlockMap.NarrowIsMissed | common/hdmap/pf_map_block_3d.cpp:260-282 | a concrete area inside a block, and a point in it, that mark nothing |
| BlockMap.CellHoldsPoint | common/hdmap/pf_map_block_3d.cpp:260-265 | the block a query looks up for a point is the one the rasteriser placed round it |
| BlockMap.NoFlyStopsFlight | common/hdmap/pf_map_block_3d.cpp:766-783 | rasteriser and query together: a block reached by a no-fly area that no later area outbids is never clear |
| BlockMap.ClearMeans | common/hdmap/pf_map_block_3d.cpp:761-789 | a block is clear if and only if its terrain height is known and at least dis_z below the flight and its area is neither no-fly nor limited above the flight |
| BlockMap.ClimbingStaysClear | common/hdmap/pf_map_block_3d.cpp:761-789 | climbing keeps a clear block clear |
| BlockMap.MapStore.CheckAround | common/hdmap/pf_map_block_3d.cpp:707-791 | error exactly when no block of the grid meets the square, a hit exactly when one that meets it is not clear, else RET_OVER |
| BlockMap.MapStore.AroundMeans | common/hdmap/pf_map_block_3d.cpp:707-743 | the same verdict by the clamped window and by the blocks that meet the square |
| BlockMap.MapStore.IsBlocked | common/hdmap/pf_map_block_3d.cpp:761-783 | the loop body blocks exactly the blocks that are not clear |
| BlockMap.MapStore.OverMeansSquareClear | common/hdmap/pf_map_block_3d.cpp:707-791 | RET_OVER: every on-map point of the square lies in a clear block |
| BlockMap.MapStore.NoFlyIsRespected | common/hdmap/pf_map_block_3d.cpp:707-791 | reader, rasteriser and query together: no RET_OVER for a square that holds a point of a no-fly area as wide as a block there and not outbid by a later area in that block |
| BlockMap.MapStore.OverIsMonotone | common/hdmap/pf_map_block_3d.cpp:707-791 | a smaller square or a higher flight never turns RET_OVER into a hit |
| BlockMap.MapStore.SweepStep | common/hdmap/pf_map_block_3d.cpp:836-862 | one more clear sample extends the swept strip by one detection distance |
| BlockMap.MapStore.CheckLine | common/hdmap/pf_map_block_3d.cpp:823-870 | terminates for every length; RET_OVER: every on-map point x + t cos, y + t sin up to the length lies in a clear block; an early stop returns the verdict at the first sample that is not clear, one detection distance beyond the safe distance, and up to there the line is clear if the safe distance is positive |
| BlockMap.MapStore.SweptMeans | common/hdmap/pf_map_block_3d.cpp:836-862 | what the sweep has cleared is half a detection distance to each side of the line, less near its ends |
| BlockMap.MapStore.SweepEndsIff | common/hdmap/pf_map_block_3d.cpp:836-862 | for detection distances from 0 on the sweep ends if and only if the distance is positive or the first sample is not clear |
| Base64.B64Encode | common/json2pb/bin2ascii.h:62-87 | the loop computes the RFC 4648 section 4 encoding |
| Base64.B64Decode | common/json2pb/bin2ascii.h:89-132 | the loop computes the decoding or its first exception |
| Base64.Alphabet | common/json2pb/bin2ascii.h:64-66 | the letters are those of RFC 4648, table 1 |
| Base64.GroupMeans | common/json2pb/bin2ascii.h:68-83 | a group of three, two or one byte gives the letters of its bits from left to right, as in section 4 of RFC 4648 |
| Base64.Vectors | common/json2pb/bin2ascii.h:62-87 | test vectors of section 10 of RFC 4648 |
| Base64.DecodeEncode | common/json2pb/bin2ascii.h:62-132 | for every byte string decoding undoes encoding; the text is canonical and 4*ceil(n/3) long |
| Base64.EncodeDecode | common/json2pb/bin2ascii.h:62-132 | for every canonical text decoding succeeds and encoding undoes it |
| Base64.SurvivesIffCanonical | common/json2pb/bin2ascii.h:62-132 | a text survives decoding and encoding if and only if it is canonical in the sense of RFC 4648 section 3.5 |
| Base64.AcceptedIff | common/json2pb/bin2ascii.h:89-132 | the decoder accepts exactly the texts of length 4k over the alphabet and `=`, wherever the `=` stands, and throws the size error exactly for the other lengths |
| JsonTree.Field2Json | common/json2pb/json2pb.cpp:50-108 | one value's JSON form, per C++ type; null for a non-finite real and for text that is not UTF-8 |
| JsonTree.Pb2Json | common/json2pb/json2pb.cpp:110-144 | the object of the set fields in descriptor order, nulls dropped, arrays for repeated fields |
| JsonTree.PrintedFit | common/json2pb/json2pb.cpp:50-108 | every printed integer is a signed 64-bit one, unsigned fields included |
| JsonTree.PrintedInOrder | common/json2pb/json2pb.cpp:110-144 | the members have names of the type's fields, in descriptor order |
| JsonTree.PrintedOneByOne | common/json2pb/json2pb.cpp:128-134 | a null drops its own array element and no other |
| JsonTree.NullLeftOut | common/json2pb/json2pb.cpp:135-142 | a field that prints as null is left out as if it were not set |
| JsonTree.Json2Field | common/json2pb/json2pb.cpp:147-224 | one JSON value, null included, set on or added to a field; with the exceptions and invalid pointers of the source and what is stored when they occur, half-parsed sub-messages included |
| JsonTree.Items2Field | common/json2pb/json2pb.cpp:253-260 | the loop over an array adds every element in order, up to the first failure |
| JsonTree.Json2Pb | common/json2pb/json2pb.cpp:226-264 | the member loop, which an unknown name ends without an error and an exception leaves with the fields stored so far |
| JsonTree.UnnamedKept | common/json2pb/json2pb.cpp:226-264 | a field that no member names keeps its values, however the conversion ends |
| JsonTree.UnknownStops | common/json2pb/json2pb.cpp:246-250 | a name the message does not have ends the conversion: it and all later members make no difference |
| JsonTree.ExceptionStops | common/json2pb/json2pb.cpp:226-264 | after an exception the remaining members make no difference |
| JsonTree.ParsingKeepsType | common/json2pb/json2pb.cpp:147-264 | whatever tree is parsed and however it ends, the message stays one of its type, integers in range and singular fields single |
| JsonTree.RefusedHow | common/json2pb/json2pb.cpp:163-222 | a scalar is stored exactly for the JSON values of its kind; else text and enums hand on an invalid pointer, all other types throw, and nothing is stored |
| JsonTree.IntegersWrap | common/json2pb/json2pb.cpp:165-180 | an integer is stored unchanged where the type holds it, else modulo its width |
| JsonTree.StoredAs | common/json2pb/json2pb.cpp:160-222 | an integer in a real field is that real; an enum is stored by number or by the number of its name |
| JsonTree.WrongShape | common/json2pb/json2pb.cpp:193-258 | what is no array adds nothing to a repeated field, what is no object leaves a message as it is |
| JsonTree.UnsignedSurvives | common/json2pb/json2pb.cpp:69-70 | every unsigned 64-bit value survives the signed cast and back |
| JsonTree.BytesSurvive | common/json2pb/json2pb.cpp:79-80 | the base64 text of a bytes field is accepted as JSON text and passes whole through C strings |
| JsonTree.TextIff | common/json2pb/json2pb.cpp:76-84 | the text accepted is exactly what encodes a sequence of Unicode scalar values (RFC 3629 section 3) |
| JsonTree.TextSurvives | common/json2pb/json2pb.cpp:81-82 | a string comes back from JSON text and C strings unchanged if and only if it is UTF-8 without NUL |
| JsonTree.ValueRoundTrip | common/json2pb/json2pb.cpp:50-224 | one value comes back unchanged if and only if it is faithful, through any nesting |
| JsonTree.ItemsRoundTrip | common/json2pb/json2pb.cpp:128-134 | a repeated field comes back unchanged if and only if every element is faithful |
| JsonTree.FieldsRoundTrip | common/json2pb/json2pb.cpp:226-264 | the fields come back if and only if they are faithful, and parsing later fields leaves earlier ones alone |
| JsonTree.RoundTrip | common/json2pb/json2pb.cpp:110-264 | for every message of a described type: parsing its tree into an empty message gives it back if and only if its reals are finite, its text is UTF-8 without NUL and its enum numbers are declared, at every depth |
| JsonTree.ParsingMerges | common/json2pb/json2pb.cpp:147-264 | parsing a printed faithful message into any message of its type merges it: repeated fields grow, sub-messages merge at every depth, other set fields are replaced, unset ones stay |
| JsonTree.BaseMeans | common/json2pb/json2pb.cpp:193-199 | a sub-message is parsed into the one the field holds, else into an empty one |
| HeightTable.GetUtmZ | common/hdmap/pf_map_block.cpp:4873-4935 | the jumping search ends, returns the height of a matching entry if there is one, and errs exactly when there is none |
| HeightTable.AnswersAsLinear | common/hdmap/pf_map_block.cpp:4873-4935 | any such answer errs exactly when a linear scan does and equals the scan where coordinates fix the height |
| HeightTable.LeavesIff | common/hdmap/pf_map_block.cpp:4880-4893 | on a sorted table the outer loop is left if and only if the query does not lie beyond the last x |
| HeightTable.StrideLegal | common/hdmap/pf_map_block.cpp:473-478 | on a sorted table the stride is defined if and only if x is not constant, and is then the whole number of entries per unit of x, at least 1 |
| DoubleList.Init | platform/linux/double_list.h:48-52 | the empty list |
| DoubleList.InsertHead | platform/linux/double_list.h:67-73 | the node is first, both link chains agree, only three nodes are written |
| DoubleList.InsertTail | platform/linux/double_list.h:88-94 | the node is last, both link chains agree, only three nodes are written |
| DoubleList.Remove | platform/linux/double_list.h:108-112 | the list without the node; only its neighbours are written, its own links stay |
| DoubleList.Traverse | platform/linux/double_list.h:127-142 | following the forward links from the head visits exactly the listed nodes in order |
| DoubleList.TraverseBack | platform/linux/double_list.h:67-94 | following the backward links visits them in reverse |
| DoubleList.OneList | platform/linux/double_list.h:127-142 | the links determine the list: a head holds one sequence of nodes only |
| DoubleList.Move | platform/linux/pf_timer_manager.cpp:73-76 | removing from one list and inserting in another leaves both well formed |
| DoubleList.AllocTimer | platform/linux/pf_timer_manager.cpp:54-79 | the first free node moves to the allocated list; null exactly when none is free |
| DoubleList.DeleteTimer | platform/linux/pf_timer_manager.cpp:94-107 | an allocated node goes back to the free list; nothing is lost or shared |
| ThreadPool.StepInv | drc/utils/ThreadPool.h:50-71 | every step keeps queue order, conservation of tasks, late exits and the no-lost-wake-up condition |
| ThreadPool.AcceptedAre | drc/utils/ThreadPool.h:75-104 | accepted are exactly the tasks enqueued before the stop flag, in their order |
| ThreadPool.Conservation | drc/utils/ThreadPool.h:42-119 | in every interleaving: tasks are taken in the order they were enqueued, and enqueued before the stop = finished + running + queued as multisets |
| ThreadPool.DestructorDrains | drc/utils/ThreadPool.h:107-119 | when the destructor has returned every task enqueued before the stop has run exactly once, if and only if the pool had a worker or nothing was enqueued |
| ThreadPool.NeverRefused | drc/utils/ThreadPool.h:50-104 | callers can always enqueue, which changes nothing on a stopped pool; wake-ups can always arrive |
| ThreadPool.Progress | drc/utils/ThreadPool.h:61-118 | no deadlock and no lost wake-up: a pool with work, or with its destructor under way, can always make an internal step |
| ThreadPool.StepMeasure | drc/utils/ThreadPool.h:50-118 | every internal step makes a measure smaller |
| ThreadPool.RunsEnd | drc/utils/ThreadPool.h:50-118 | the length of a run is bounded by its enqueues and spurious wake-ups, so shutdown ends without any fairness assumption |
| RequestMatcher.StepGood | common/if/requestContextManager.cpp:31-52 | every step with a fresh key keeps the invariant |
| RequestMatcher.RegisterSturdyIff | common/if/requestContextManager.h:88-105 | after a registration the map describes exactly the waiting requests, and still does when another message fails to serialise, if and only if no live request has the key |
| RequestMatcher.SturdyRunIff | common/if/requestContextManager.h:79-135 | over any run the map stays right in this sense if and only if every registration's key is fresh |
| RequestMatcher.RunOutcome | common/if/requestContextManager.h:79-135 | after every run with distinct in-flight keys the map holds exactly the waiting requests, no response settled two, and a sender returned true if and only if its response carried result 0 |
| RequestMatcher.SettledOnce | common/if/requestContextManager.cpp:31-52 | what settled a request, and what was returned, never changes |
| RequestMatcher.ReplyReaches | common/if/requestContextManager.cpp:31-52 | a response settles the waiting request with its key and touches no other |
| RequestMatcher.CanReturn | common/if/requestContextManager.h:112-134 | a sender whose message is out can always return by one step, false by its timeout or what its response carried, touching no other request |
| RequestMatcher.CanSend | common/if/requestContextManager.h:100-111 | a message goes out, or its sender returns false at once |
| RequestMatcher.SharedKeyLosesAnswer | common/if/requestContextManager.h:94-98 | without distinct keys a sender can return false although a response with result 0 arrived while it waited |
| RequestMatcher.AbsentKeyLosesAnswer | common/if/requestContextManager.h:94-105 | the same for a key that was not in the map when it was registered, through a failed serialisation |
| ContinuousMove.MoveStickHeads | cloud/flyto/flytoController.cpp:372-390 | for every speed the stick deflects on one axis, towards the direction asked for, within full deflection |
| ContinuousMove.LimitIsTableEnd | cloud/flyto/flytoController.cpp:78-85 | a direction's speed limit is exactly what its table covers: no accepted speed falls back on the last entry |
| ContinuousMove.StickForSpeed | cloud/flyto/flytoController.cpp:372-390 | within the limit the deflection is the offset of the slowest table entry that is not slower than asked, on the axis of the direction |
| ContinuousMove.SeparatedStep | cloud/flyto/flytoController.cpp:656-662 | a command keeps the log separated if it is a centre command or keeps the current direction |
| ContinuousMove.RequestTakesHold | cloud/flyto/flytoController.cpp:600-714 | a continuous move is refused exactly outside directions 1 to 6 and speeds above 0 up to the axis limit; else it retargets the mover, starts one, or waits for the old one to end |
| ContinuousMove.JoinTakesHold | cloud/flyto/flytoController.cpp:656-672 | when the join returns the centre command is sent and the awaited mover starts with the requested stick |
| ContinuousMove.StopTakesHold | cloud/flyto/flytoController.cpp:716-741 | a stop lowers the flag and centres at once or after the join |
| ContinuousMove.TurnSends | cloud/flyto/flytoController.cpp:674-708 | each turn of an undisturbed mover, avoidance modes 8 and 15 included, sends the shared stick once |
| ContinuousMove.MoverLeaves | cloud/flyto/flytoController.cpp:677-706 | a mover that leaves lowers the flag, sends nothing, and on a takeover gives the control mode up; that happens only on a code outside 3, 8 and 15 |
| ContinuousMove.IdleSilences | cloud/flyto/flytoController.cpp:677-681 | once the control mode is taken away and not given back, a mover sends at most the command under way |
| ContinuousMove.StepInv | cloud/flyto/flytoController.cpp:600-741 | every step of handlers, mover, telemetry and mode changes keeps the invariant |
| ContinuousMove.Safety | cloud/flyto/flytoController.cpp:600-741 | in every run at most one mover is live and commands of different directions have a centre command between them; with no owned thread no deflection is current |
| ContinuousMove.StopLeavesCentre | cloud/flyto/flytoController.cpp:716-741 | a completed stop leaves a centre command last and no live mover |
| ContinuousMove.TakeoverSilences | cloud/flyto/flytoController.cpp:682-694 | once the aircraft has left manual control for good, a mover that had seen it sends at most the one command under way |
| ContinuousMove.DoneForGood | cloud/flyto/flytoController.cpp:674-708 | a mover out of its loop never sends again, even if manual flight returns |
| ContinuousMove.JoinEnds | cloud/flyto/flytoController.cpp:656-662 | while a handler waits in join, every step of the thread brings it nearer its end and nothing puts it off |
| ContinuousMove.LogStands | cloud/flyto/flytoController.cpp:674-741 | with no live mover nothing is sent over any run in which no handler runs |
| ContinuousMove.TakeoverLeavesDeflection | cloud/flyto/flytoController.cpp:688-693 | after a takeover and over any run without a handler, the mover's direction is the last deflection if it had sent a command, else there is none |
| ContinuousMove.TakeoverHappens | cloud/flyto/flytoController.cpp:674-708 | a run from the start that ends so: forward flight, one command sent, a return home, no handler waiting |
| SpeedTables.SpeedToOffset | cloud/flyto/moveSpeedTable.h:33-39 | the loop finds the first entry not exceeded, else the last |
| SpeedTables.OffsetMonotone | cloud/flyto/moveSpeedTable.h:33-39 | on ascending offsets the result is monotone in the speed and within the table's ends |
| SpeedTables.OffsetExact | cloud/flyto/moveSpeedTable.h:33-39 | on ascending speeds every entry is its own answer |
| SpeedTables.OffsetBetween | cloud/flyto/moveSpeedTable.h:33-39 | between two speeds the faster one's offset is taken |
| SpeedTables.ShippedTables | cloud/flyto/moveSpeedTable.h:12-25 | the three shipped tables ascend in offset and strictly in speed |
| SpeedTables.YawSpeedForZoom | cloud/flyto/flytoController.cpp:46-59 | the loop interpolates on the segment the zoom lies on, clipped at the ends |
| SpeedTables.YawMonotone | cloud/flyto/flytoController.cpp:46-59 | a larger zoom never turns faster, over the whole line |
| SpeedTables.YawWithinEnds | cloud/flyto/flytoController.cpp:46-59 | the result stays within the table's end values |
| SpeedTables.YawExact | cloud/flyto/flytoController.cpp:46-59 | every knot is its own answer |
| SpeedTables.YawLinear | cloud/flyto/flytoController.cpp:51-56 | between two knots the rate lies on the line through them |
| SpeedTables.ShippedYaw | cloud/flyto/flytoController.cpp:32-59 | with the shipped table every zoom turns at 10.9 to 72.5 degrees a second, and every knot at its own rate |
| EventTables.EventMap.InitEventMap | common/decl_event.cpp:63-126 | both tables describe, for each segment number, the last segment opened with it and its extent; false exactly where the range assertion fires |
| EventTables.EventMap.GetEventName | common/decl_event.cpp:127-148 | the table lookup, unknown outside the extents |
| EventTables.EventMap.GetEventId | common/decl_event.cpp:151-173 | an id whose table position has the name, failure only if no id has it |
| EventTables.EnumFromBegin | common/event.h:24-55 | the C enum numbers each declaration from its segment's start |
| EventTables.AgreeIff | common/decl_event.cpp:63-148 | in a build with one list, the tables find every event under its own enumerator if and only if every segment starts at a multiple of 256, holds at most 256 numbers, and no two start alike |
| EventTables.OnlyEnumerators | common/decl_event.cpp:127-148 | an id the tables of a well-formed list know is the number that list gives the event; every other id is unknown |
| EventTables.LastEventUnknownIff | common/event.h:32-65 | LAST_EVENT is unknown to the tables if and only if no segment starts at its number |
| EventTables.NamesInverse | common/decl_event.cpp:127-173 | with distinct names the two lookups are inverse |
| EventTables.NamesAgreeIff | common/decl_event.cpp:63-148 | enum and tables from different lists: every enumerator gets its own name if and only if each segment of the enum starts a segment of the tables with the same number and the same first names |
| EventTables.OthersUnknownIff | common/decl_event.cpp:127-148 | ids that are no enumerators are all unknown if and only if the tables number no event as the enum does not |
| EventTables.DefaultBuildDisagrees | common/event.h:56-67 | the default build, whose enum and tables open segment 2048 with different lists, gives an enumerator another event's name |
| Landing.TrackMain.DetectLanding | cloud/track/trackMain.cpp:152-172 | reports exactly on a ground code while airborne |
| Landing.TrackMain.ParseOsd | cloud/track/trackMain.cpp:73-79 | called only on change, the detector still reports exactly the samples that end a flight in the whole history |
| Landing.FlagMeans | cloud/track/trackMain.cpp:152-172 | airborne means an airborne sample with no ground sample after it |
| Landing.ModeCodes | cloud/track/trackMain.cpp:143-157 | the mode codes on the ground and in the air by number; 13, 14, -1 and all others are neutral |
| Landing.ReportsCount | cloud/track/trackMain.cpp:152-172 | there are as many reports as samples that end a flight |
| Landing.OneFlightPerReport | cloud/track/trackMain.cpp:152-172 | between two reports lies an airborne sample |
| Landing.NeutralCodesIgnored | cloud/track/trackMain.cpp:152-172 | deleting neutral codes changes no report |
| PlateDistance.Hanming.Load | drc/utils/IniHanmingDistanceMap.cpp:17-45 | the loaded table holds exactly the pairs of the visited entries, both ways round, each with the value of the first visited entry that has the pair, and is symmetric |
| PlateDistance.EverythingVisitedIff | drc/utils/IniHanmingDistanceMap.cpp:23-40 | because the inner loop counts in the outer variable, every configured entry is visited if and only if only the first letter has any |
| PlateDistance.PassedOver | drc/utils/IniHanmingDistanceMap.cpp:23-40 | a letter i with n > i entries makes the loops pass over letters i + 1 to n and go on with letter n + 1 |
| PlateDistance.EverythingLoadedIff | drc/utils/IniHanmingDistanceMap.cpp:23-40 | every configured pair is in the loaded table if and only if each entry passed over repeats the pair of a visited one; with no pair configured twice, if and only if only the first letter has entries |
| PlateDistance.HanmingDistance | drc/utils/IniHanmingDistanceMap.cpp:50-155 | the two loops compute the distance |
| PlateDistance.OneMoreUnit | drc/utils/IniHanmingDistanceMap.cpp:78-113 | a further pair of units adds 0 if equal, the table's value if the table is in use and knows the pair, else 1 |
| PlateDistance.DistanceCounts | drc/utils/IniHanmingDistanceMap.cpp:50-155 | without a table the distance is the number of unequal Chinese characters and unequal letters and digits plus the two differences in length; with no letters or digits on one side the Chinese part only |
| PlateDistance.ZeroIff | drc/utils/IniHanmingDistanceMap.cpp:50-155 | without a table it is 0 if and only if the Chinese parts agree and the rest does or is missing on one side |
| PlateDistance.EmptyText | drc/utils/IniHanmingDistanceMap.cpp:53-68 | an empty text: 0 for flag 0, the length of the other for flag 1 |
| PlateDistance.DistanceSymmetric | drc/utils/IniHanmingDistanceMap.cpp:50-155 | over a symmetric table d(a,b) = d(b,a) for every flag, and d(a,a) = 0 |

## Left out

- BlockMap.MapStore.SetBlockAreas: requires at most 127 areas of each kind, because the source stores the index in one signed byte and would read areas at negative positions beyond that; blocks come from the reader or from an earlier pass over the same areas.
- BlockMap.MapStore.CheckLine: requires a positive detection distance (the caller passes 5.0); `SweepEndsIff` says what happens with 0, a negative one is not modelled.
- HeightTable.GetUtmZ: requires that the query does not lie beyond the last x, the condition `LeavesIff` proves necessary; the error value -2, which is also a possible height, is a separate case here.
- EventTables.EventMap.InitEventMap: tables are specified only where no range assertion fires; names are given beside the declaration lists, position by position.
- ContinuousMove.TakeoverSilences: counts the commands of one mover; the time between them is not modelled.
- JsonTree.Json2Field: messages are values, so a sub-message handed out by AddMessage or MutableMessage is parsed and then stored, whole or half parsed, instead of being changed through its pointer; what an invalid pointer does beyond ending the conversion is undefined in C++.
- PlateDistance.HanmingDistance: requires that the shorter Chinese part consists of whole three-byte characters, because the source reads past its end otherwise.
- HeightTable.StrideLegal: requires an entry, because the source reads the entry before the first one of an empty table.
- Floating point: all reals are exact, `float` fields included; conversions of out-of-range doubles to integers, which C++ leaves undefined, are unbounded here.
- Integer width outside the JSON conversion, where it is explicit: counters and the product of step and stride are unbounded.
- JSON text, unknown fields, extensions, oneofs and fields without presence.
- The `<block>` lines of the map file, the z coordinate of polygon nodes, area names and types, and the line scanner itself: the model starts from parsed lines.
- `check_fly_resdiction`, `get_block_z` and the lon/lat wrappers: single-branch queries over the same tests, or geodesy.
- Time-outs as durations, log output, identifiers and error texts.
- The order in which the request matcher takes its two mutexes: a time-out's decision and clean-up are one step.
- Failing sends of centre commands, and timed moves and turns running beside a continuous move.
- The regular expressions of the plate distance: a plate comes with its two filtered forms, the Chinese one in units of three bytes as UTF-8 gives them.
- `ThreadPool` futures, return values and exceptions of tasks.
