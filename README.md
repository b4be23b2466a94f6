# PostGIS geometry core, modelled in Dafny

This project models the geometry core of PostGIS, in two generations of its C library and in the Java JDBC client.

**liblwgeom (the newer tree)**
- the point array (`POINTARRAY`) and its editing operations;
- the serialized forms of points, polygons and triangles;
- the curve types: curve polygon, compound curve, multi surface;
- the generic `LWGEOM` helpers;
- homogenisation of collections;
- the geodetic coordinate checks;
- the actions of the WKT parser.

**lwgeom (the older tree)**
- the structs of points, collections, multipoints and multipolygons, and their serializers;
- the hexadecimal WKB input and output of `LWGEOM_in`/`LWGEOM_out`;
- the WKT/WKB unparser.

**postgis**
- `PG_LWGEOM` construction and SRID/box editing;
- the repairs applied before GEOS;
- the argument handling around GEOS: buffer parameters, the union walk over a NULL bitmap, relate patterns, the prepared-geometry cache;
- ST_AsGML.

**Java (jdbc2)**
- `ComposedGeom`, `MultiPolygon` and the text entry point of `PGgeometry`.

**How C and Java are rendered**
- Pure code becomes datatypes, functions and lemmas.
- Code that fills buffers or arrays step by step becomes methods over `array`s, with loop invariants. Each method is proved against a specification function.
- Structs the C updates in place (a point array, the WKT parser's global result, the unparser's output buffer, the homogenisation buckets, a curve polygon's ring list, the prepared-geometry cache) become classes.
- `lwerror` never returns, so it becomes an `Err` result, with the state left as it was.
- Functions outside the modelled files (`lwgeom_inspect`, other types' decoders and constructors, GEOS, the number formatting of `sprintf`, Java's `PGtokenizer`, …) are function-typed parameters.

**Header constants.** `liblwgeom.h` is not part of this model, so the header constants are taken as PostGIS defines them:
- type-byte flags: 0x80 box, 0x40 SRID, 0x20 Z, 0x10 M, with the type in the low nibble;
- the PostGIS 2.0 numbering of the curve types;
- `SRID_UNKNOWN` -1 and `SRID_MAXIMUM` 999999.

**Java default dimension.** An empty `ComposedGeom` gets dimension 0, as the code at ComposedGeom.java:67-68 does.

## Model

| member | source | states |
|---|---|---|
| PointArrays.Store | liblwgeom/ptarray.c:113 | a stored point has exactly the array's number of ordinates (2, 3 or 4) |
| PointArrays.LoadStore | liblwgeom/ptarray.c:113 | reading back a stored point gives it back with the absent Z and M read as 0.0 (also line 137) |
| PointArrays.StoreLoad | liblwgeom/ptarray.c:137 | storing what was read gives back the stored ordinates unchanged (also line 325) |
| PointArrays.RemovedInserted | liblwgeom/ptarray.c:72-120 | removing the point just inserted at `where` gives back the original point list (also lines 198-226) |
| PointArrays.ReversedTwice | liblwgeom/ptarray.c:287-306 | reversing twice gives back the original point list |
| PointArrays.ReversedAt | liblwgeom/ptarray.c:287-306 | point k of the reversal is point n-1-k of the input |
| PointArrays.DedupHasNoRepeats | liblwgeom/ptarray.c:1116-1158 | the reference collapse of repeated neighbours leaves no two equal neighbours |
| PointArrays.DedupOfNoRepeats | liblwgeom/ptarray.c:1116-1158 | a list without equal neighbours is its own collapse |
| PointArrays.DedupShorter | liblwgeom/ptarray.c:1116-1158 | a list with equal neighbours strictly shrinks |
| PointArrays.DedupEnds | liblwgeom/ptarray.c:1116-1158 | the collapse keeps the first and the last point and is never empty |
| PointArrays.RemoveRepeatedEnds | liblwgeom/ptarray.c:1116-1158 | the result of ptarray_remove_repeated_points starts with the input's first point and ends with its last |
| PointArrays.RemoveRepeatedFixpoint | liblwgeom/ptarray.c:1116-1158 | arrays of fewer than 3 points are copied; from 3 points on the array comes back unchanged exactly when it has no equal neighbours |
| PointArrays.RemoveRepeatedIdempotent | liblwgeom/ptarray.c:1116-1158 | removing repeated points twice gives the same as once |
| PointArrays.Column | liblwgeom/ptarray.c:720-769 | the list of one ordinate (x, y or z) of every point, index for index |
| PointArrays.LeastStep | liblwgeom/ptarray.c:751-762 | one step of the minimum scan keeps the running value the least of the prefix seen |
| PointArrays.GreatestStep | liblwgeom/ptarray.c:751-762 | one step of the maximum scan keeps the running value the greatest of the prefix seen |
| PointArrays.FirstBox | liblwgeom/ptarray.c:727-747 | the box of the first point alone has that point's ordinates as both bounds |
| PointArrays.ExtendStep | liblwgeom/ptarray.c:751-766 | extending the box of the first t points by point t gives the box of the first t+1 |
| PointArrays.BoxOfIsBox | liblwgeom/ptarray.c:720-769 | the scanned box holds the least and greatest x, y (and z when present) over all points |
| PointArrays.PointArray.Contents | liblwgeom/ptarray.c:19-43 | the counted points, each with the array's number of ordinates |
| PointArrays.PointArray.Construct | liblwgeom/ptarray.c:19-43 | ptarray_construct: npoints = maxpoints = n, flags as given, fresh storage |
| PointArrays.PointArray.ConstructEmpty | liblwgeom/ptarray.c:46-65 | ptarray_construct_empty: no points, capacity as given |
| PointArrays.PointArray.Reserve | liblwgeom/ptarray.c:85-102 | 32 slots when there is no storage, doubled when full, contents unchanged and one free slot afterwards |
| PointArrays.PointArray.InsertPoint | liblwgeom/ptarray.c:72-120 | fails exactly when where is outside [0, npoints] and then changes nothing; otherwise the points from where move up one and p is stored at where, with the capacity grown as Reserve says |
| PointArrays.PointArray.AppendPoint | liblwgeom/ptarray.c:123-151 | with repeated points refused, a point equal to the last in every present ordinate leaves the array unchanged; otherwise the point is inserted at the end |
| PointArrays.PointArray.RemovePoint | liblwgeom/ptarray.c:198-226 | fails exactly when where is outside [0, npoints) and then changes nothing; otherwise the later points move down one, capacity unchanged |
| PointArrays.PointArray.Reverse | liblwgeom/ptarray.c:287-306 | the contents become their reversal (for at least one point) |
| PointArrays.PointArray.Same | liblwgeom/ptarray.c:449-471 | true exactly when the Z/M flags, the point count and every stored ordinate agree |
| PointArrays.PointArray.AddPoint | liblwgeom/ptarray.c:487-537 | fails exactly when p has fewer than 2 or more than 4 ordinates or where > npoints; otherwise a fresh exactly-full array with p (zero-padded, cut to the array's dimensions) inserted at where |
| PointArrays.PointArray.RemovePointCopy | liblwgeom/ptarray.c:546-584 | fails exactly when which is out of range or the array has fewer than 3 points; otherwise a fresh array without point which |
| PointArrays.PointArray.CloneAsWritten | liblwgeom/ptarray.c:625-641 | the clone copies maxpoints but has storage for npoints only, so it is a valid array exactly when the input was full |
| PointArrays.PointArray.Clone | liblwgeom/ptarray.c:625-641 | a fresh valid array with the same flags and points |
| PointArrays.PointArray.RemoveRepeatedPoints | liblwgeom/ptarray.c:1116-1158 | a fresh array whose points are RemoveRepeatedSpec of the input; from 3 points on its capacity is the input's point count, below 3 it is `ptarray_clone` as written, keeping the input's capacity over storage for its points only, so it is well formed exactly when the input has 3 points or more or is full (also lines 625-641) |
| PointArrays.PointArray.ComputeBox3d | liblwgeom/ptarray.c:720-769 | no box for an empty array; otherwise the box holding the least and greatest of each ordinate (z 0.0 without Z) |
| PointArrays.Merge | liblwgeom/ptarray.c:594-618 | fails exactly when the Z/M flags differ; otherwise a fresh exactly-full array of pa1's points then pa2's |
| PointArrays.CopyWithoutRepeats | liblwgeom/ptarray.c:1125-1152 | the scan writes exactly RemoveRepeatedSpec of the input points to the destination |
| PointArrays.InsertAt | liblwgeom/ptarray.c:104-117 | the shift and store leave the first n+1 slots equal to the insertion of x at where |
| PointArrays.CopyInserted | liblwgeom/ptarray.c:520-535 | the three copies of ptarray_addPoint produce the insertion of x at where |
| PointArrays.CopyRemoved | liblwgeom/ptarray.c:571-582 | the two copies of ptarray_removePoint produce the list without which |
| PointArrays.ReverseRange | liblwgeom/ptarray.c:295-305 | the swap loop reverses the first n slots and leaves the rest |
| PointArrays.CopyConcat | liblwgeom/ptarray.c:606-612 | the two copies of ptarray_merge produce the concatenation |
| PointArrays.ShiftUp | liblwgeom/ptarray.c:105-110 | the points in [where, n) move up one slot, the others stay |
| Bytes.Int32RoundTrip | liblwgeom/lwpoint.c:79-83 | an int32 SRID copied out as four bytes reads back as the same SRID |
| Bytes.Int32BytesOf | liblwgeom/lwpoint.c:79-83 | any four bytes are the encoding of the int32 read from them |
| Bytes.UInt32RoundTrip | liblwgeom/lwpoly.c:233 | a 32-bit count copied out as four bytes reads back as the same count modulo 2^32 (also line 250) |
| Bytes.WordsRoundTrip | liblwgeom/lwpoint.c:85-86 | the 8-byte ordinates copied out read back as the same ordinates in the same order |
| Bytes.WordsBytesAt | liblwgeom/lwpoint.c:85-86 | ordinate i of a copied run sits at bytes 8i to 8i+8 |
| Bytes.Put | liblwgeom/lwpoint.c:71-86 | the memcpy-and-advance step: the bytes land at loc, the cursor moves past them, nothing else in the buffer changes |
| Bytes.DoubleEqIsBitsOrZero | liblwgeom/ptarray.c:141-143 | C `==` on two doubles holds exactly for identical bit patterns and for +0.0 against -0.0 |
| LwTypes.FlagBits | liblwgeom/lwpoint.c:68-70 | the flag nibble has one bit per flag: M, Z, SRID, BBOX from low to high |
| LwTypes.FlagBitsOf | liblwgeom/lwpoint.c:68-70 | every flag nibble is the one its own four bits spell |
| LwTypes.MakeTypeFull | liblwgeom/lwpoint.c:68-70 | lwgeom_makeType_full: reading the byte back gives the type and each of the four flags that went in |
| LwTypes.MakeTypeFullOfParts | liblwgeom/lwpoint.c:270-295 | every type byte is the one lwgeom_makeType_full builds from its own parts |
| LwTypes.TypeByteParts | liblwgeom/lwpoint.c:270-295 | two type bytes agreeing on type and all four flags are the same byte |
| LwTypes.WithBBoxFlag | liblwgeom/lwgeom.c:897 | TYPE_SETHASBBOX changes the box flag only (also line 910) |
| LwTypes.WithSRIDFlag | liblwgeom/lwgeom.c:916 | TYPE_SETHASSRID changes the SRID flag only |
| LwTypes.ReadHeader | liblwgeom/lwpoint.c:280-305 | a box is read exactly when the type byte flags one; without the SRID flag the SRID is -1 |
| LwTypes.ReadHeaderBytes | liblwgeom/lwpoint.c:71-83 | the header written (type byte, box, SRID) has the size the type byte announces and reads back to the box and SRID written, whatever follows (also lines 280-305) |
| LwTypes.PutHeader | liblwgeom/lwpoint.c:68-83 | the cursor ends right after the header bytes, which are exactly the type byte, box and SRID |
| LwTypes.PointsSizeMul | liblwgeom/lwpoint.c:84-86 | the point bytes are 8 times ndims times npoints |
| LwTypes.PointsBytesAt | liblwgeom/lwpoint.c:84-86 | point i of a copied point list sits at bytes 8·nd·i to 8·nd·(i+1) |
| LwTypes.PointAtBytes | liblwgeom/lwpoint.c:308 | point i read back from the copied bytes is point i |
| LwTypes.PointsRoundTrip | liblwgeom/lwpoint.c:84-86 | reading back the copied bytes of a point list gives the list back (also line 308) |
| LwTypes.PtArrSameIsEquality | liblwgeom/ptarray.c:449-471 | ptarray_same on point-list values holds exactly when the values are equal |
| LwTypes.ForcePts | liblwgeom/ptarray.c:672-692 | ptarray_force_dims gives a well-formed list with the requested flags and as many points |
| LwTypes.ForcePtsLoad | liblwgeom/ptarray.c:672-692 | each forced point keeps x and y, keeps z and m where the new flags have them, and reads 0.0 where they do not |
| LwTypes.ForcePtsSame | liblwgeom/ptarray.c:672-692 | forcing to the flags a list already has changes nothing |
| LwTypes.ForcePtsUpDown | liblwgeom/ptarray.c:672-692 | forcing to four dimensions and back gives the list back |
| LwPoint.SerializeSizeAgrees | liblwgeom/lwpoint.c:143-157 | lwpoint_serialize_size counts exactly the bytes lwpoint_serialize_buf writes |
| LwPoint.SerializeBuf | liblwgeom/lwpoint.c:48-89 | fails exactly on a Z/M mismatch between struct and array, writing nothing; otherwise writes the layout from the start of buf and reports its size |
| LwPoint.SizeOfSerialized | liblwgeom/lwpoint.c:354-387 | lwgeom_size_point on a serialized point is the size serialize_size computed for it |
| LwPoint.Deserialize | liblwgeom/lwpoint.c:258-313 | the cursor-driven read builds exactly the Decode value (non-point type an error, box when flagged, SRID -1 when not flagged) |
| LwPoint.DecodeLayout | liblwgeom/lwpoint.c:270-310 | bytes laid out as serialize_buf writes a point read back as its type byte, box, SRID and first point |
| LwPoint.DecodeSerialized | liblwgeom/lwpoint.c:48-89 | deserialize inverts serialize_buf: it rebuilds the written type byte, box, SRID (-1 when none was written) and first point (also lines 258-313) |
| LwPoint.DecodeCanonical | liblwgeom/lwpoint.c:48-89 | a point struct as deserialize builds one survives serialize then deserialize unchanged (also lines 258-313) |
| LwPoint.Construct | liblwgeom/lwpoint.c:164-178 | no point without an array; Z/M from the array; the SRID flag exactly when SRID > 0; the box kept without its flag |
| LwPoint.ConstructEmpty | liblwgeom/lwpoint.c:181-189 | no array, no box, Z/M as given, the SRID flag exactly when srid > 0 |
| LwPoint.EmptyConstructors | liblwgeom/lwpoint.c:164-189 | the empty constructor builds an empty point; construct on an array is empty exactly when the array has no points (also lines 425-430) |
| LwPoint.SameIsArrayEquality | liblwgeom/lwpoint.c:398-401 | lwpoint_same holds exactly when the two point arrays are equal values; box and SRID are ignored |
| LwPoint.SetType | liblwgeom/lwpoint.c:405-423 | TYPE_SETTYPE replaces the type and keeps all four flags |
| LwPoint.ForceDims | liblwgeom/lwpoint.c:405-423 | the SRID and type are kept, the flags become the requested ones, there is no box, emptiness is kept and a non-empty array keeps its point count |
| LwPoint.ForceDimsProperties | liblwgeom/lwpoint.c:405-423 | forcing to the flags a point already has keeps its array; forcing twice is forcing once |
| LwPoly.Construct | liblwgeom/lwpoly.c:27-59 | succeeds exactly when there is at least one ring and all rings share the first's Z/M; the polygon holds the rings, is full (maxrings = nrings), keeps SRID and box, has no box flag and the SRID flag exactly when SRID > 0 |
| LwPoly.ConstructEmpty | liblwgeom/lwpoly.c:62-72 | an allocated ring array with no rings and room for one, no box, Z/M as given, SRID flag exactly when srid > 0 |
| LwPoly.SerializeSize | liblwgeom/lwpoly.c:360-382 | the loop adds up the header, the ring count and per ring a count and its ordinates |
| LwPoly.SerializeSizeAgrees | liblwgeom/lwpoly.c:197-263 | lwpoly_serialize_size counts exactly the bytes serialize_buf writes (also lines 360-382) |
| LwPoly.SerializeBuf | liblwgeom/lwpoly.c:197-263 | fails exactly when some ring's Z/M differ from the polygon's; otherwise writes the layout and reports serialize_size's count |
| LwPoly.PutRings | liblwgeom/lwpoly.c:236-259 | the ring loop writes each ring's count and points in order, stopping at the first ring with other Z/M, and accounts for the points' bytes |
| LwPoly.Deserialize | liblwgeom/lwpoly.c:82-164 | the cursor-driven read builds exactly the Decode value: a non-polygon is an error, nrings = maxrings = the count read, no ring array for 0 rings |
| LwPoly.ReadRingsAt | liblwgeom/lwpoly.c:151-158 | the ring loop reads n rings, each a count and that many points, in order |
| LwPoly.SizePoly | liblwgeom/lwpoly.c:282-356 | lwgeom_size_poly is -9999 for no input or a non-polygon, else the length its counts announce |
| LwPoly.DecodeSerialized | liblwgeom/lwpoly.c:82-164 | deserialize inverts serialize_buf: type byte, box, SRID (-1 when none written), ring count and every ring come back; size_poly of the bytes is their length (also lines 197-263, 282-356) |
| LwPoly.DecodeCanonical | liblwgeom/lwpoly.c:82-164 | a polygon struct as deserialize builds one survives serialize then deserialize unchanged (also lines 197-263) |
| LwPoly.AddRing | liblwgeom/lwpoly.c:452-469 | fails without a polygon or a ring; otherwise the ring is appended last, and type, SRID, box and maxrings are kept |
| LwPoly.CountVertices | liblwgeom/lwpoly.c:630-640 | the loop sums the points over all rings |
| LwPoly.AddRingCounts | liblwgeom/lwpoly.c:452-469 | adding a ring adds its points to the vertex count and leaves the polygon non-empty (also lines 630-640) |
| LwPoly.Same | liblwgeom/lwpoly.c:525-536 | the loop is equal ring counts and ptarray_same ring by ring |
| LwPoly.SameRingsIsEquality | liblwgeom/lwpoly.c:525-536 | two polygons are the same exactly when their ring lists are equal; order counts, SRID and box do not |
| LwPoly.FromLines | liblwgeom/lwpoly.c:546-577 | fails unless shell and holes have at least 4 points, are closed in 2D and holes carry the shell's SRID; the polygon holds the shell's then the holes' arrays with the shell's SRID and no box |
| LwTriangle.Construct | liblwgeom/lwtriangle.c:26-41 | the array, SRID and box are kept; Z/M come from the array; the SRID flag is set for every SRID other than -1; no box flag |
| LwTriangle.ConstructEmpty | liblwgeom/lwtriangle.c:44-52 | no array and no box, Z/M as given, SRID flag exactly when srid > 0 |
| LwTriangle.ConstructorsSRIDFlag | liblwgeom/lwtriangle.c:26-52 | the two constructors agree on the SRID flag exactly for -1 and positive SRIDs |
| LwTriangle.SerializeSizeAgrees | liblwgeom/lwtriangle.c:161-224 | lwtriangle_serialize_size counts exactly the bytes serialize_buf writes (also lines 281-296) |
| LwTriangle.SerializeBuf | liblwgeom/lwtriangle.c:161-224 | fails exactly on a Z/M mismatch and then writes nothing; otherwise writes the layout and reports serialize_size's count |
| LwTriangle.SizeOf | liblwgeom/lwtriangle.c:240-276 | lwgeom_size_triangle fails exactly on a non-triangle; the size never exceeds the bytes of a readable input |
| LwTriangle.Deserialize | liblwgeom/lwtriangle.c:62-128 | the cursor-driven read builds exactly the Decode value |
| LwTriangle.DecodeLayout | liblwgeom/lwtriangle.c:62-128 | bytes laid out as serialize_buf writes a triangle read back as its type byte, SRID, box and points |
| LwTriangle.DecodeSerialized | liblwgeom/lwtriangle.c:62-128 | deserialize inverts serialize_buf, and lwgeom_size_triangle of the bytes is their length (also lines 161-224, 240-276) |
| LwTriangle.DecodeCanonical | liblwgeom/lwtriangle.c:62-128 | a triangle struct as deserialize builds one survives serialize then deserialize unchanged (also lines 161-224) |
| LwTriangle.SameIsArrayEquality | liblwgeom/lwtriangle.c:353-356 | two triangles are the same exactly when their arrays are equal values |
| LwTriangle.Reverse | liblwgeom/lwtriangle.c:340-343 | the points come in reverse order, and everything else is kept |
| LwTriangle.ReverseTwice | liblwgeom/lwtriangle.c:340-343 | reversing twice gives the triangle back |
| LwTriangle.IsRepeatedPointsMeaning | liblwgeom/lwtriangle.c:387-397 | the test as written holds exactly when no point repeats its neighbour; the corrected one exactly when one does |
| LwTriangle.FromLineAccepts | liblwgeom/lwtriangle.c:365-384 | the corrected conversion accepts exactly the closed 4-point shells with no repeated neighbour, keeping the points and the SRID |
| LwTriangle.FromLine | liblwgeom/lwtriangle.c:365-397 | a triangle made from a shell keeps its point array and SRID and has the triangle type; a shell without exactly 4 points, or not closed, is an error |
| LwTriangle.FromLineAsWrittenInverted | liblwgeom/lwtriangle.c:365-397 | the conversion as written accepts exactly the shells the corrected one rejects |
| LwTriangle.UnitShellRejected | liblwgeom/lwtriangle.c:365-397 | the closed ring (0,0) (1,0) (0,1) (0,0) is rejected as written and accepted by the corrected conversion |
| LwCurvePoly.GrownCapacity | liblwgeom/lwcurvepoly.c:121-134 | add_ring leaves 2 slots when there was no storage and keeps the capacity while slots are free |
| LwCurvePoly.CurvePoly.Empty | liblwgeom/lwcurvepoly.c:79-92 | no rings, room for one, no box, Z/M as given, SRID flag for any SRID other than -1 |
| LwCurvePoly.AddRing | liblwgeom/lwcurvepoly.c:94-150 | false without a polygon or ring; an error for no storage with non-zero counts; false for a non-curve ring; otherwise storage made or doubled, a ring already held (same pointer) not added again, any other appended; type, SRID and box kept |
| LwCurvePoly.Added | liblwgeom/lwcurvepoly.c:136-149 | the accepted ring is held afterwards, and the rings before it are kept in order with at most one added |
| LwCurvePoly.AddedProperties | liblwgeom/lwcurvepoly.c:136-149 | adding a ring twice is adding it once, and the ring array never holds one pointer twice |
| LwCurvePoly.Deserialize | liblwgeom/lwcurvepoly.c:22-76 | succeeds exactly on a curve-polygon type byte whose rings are all circular strings, lines or compound curves with its number of dimensions; the result keeps the header's SRID and box and the rings in order |
| LwCompound.Components | liblwgeom/lwcompound.c:53-58 | one component per sub-geometry, in order, decoded as a line or a circular string by its type |
| LwCompound.DeserializeWith | liblwgeom/lwcompound.c:19-71 | the loop succeeds exactly on a compound type byte whose components all have the dimension count it compares with; the result keeps header SRID, box and components |
| LwCompound.DeserializeAsWritten | liblwgeom/lwcompound.c:19-71 | as written, every component must count the dimensions of the bare COMPOUNDTYPE |
| LwCompound.Deserialize | liblwgeom/lwcompound.c:19-71 | the corrected decoder compares each component with the serialized type byte's dimensions |
| LwCompound.BareCompoundIs2D | liblwgeom/lwcompound.c:35 | the bare type stored in the struct counts two dimensions whatever the serialized Z/M |
| LwCompound.ZCompoundRejected | liblwgeom/lwcompound.c:35-37 | a compound with Z or M whose components match its serialized type byte fails the test as written (also lines 59-66) |
| LwCompound.OneComponentClosed | liblwgeom/lwcompound.c:74-94 | a single-component compound is closed exactly when its array is closed in 2D (3D with Z) |
| LwCompound.ClosedByEnds | liblwgeom/lwcompound.c:74-94 | closure depends only on the first and last components |
| LwCompound.IsClosed | liblwgeom/lwcompound.c:74-94 | closed exactly when the first point of the first component equals the last point of the last component in x and y, and in z when the compound has Z |
| LwMSurface.Deserialize | liblwgeom/lwmsurface.c:20-98 | succeeds exactly on a multisurface type byte whose members are polygons or curve polygons with its number of dimensions; the result keeps the type byte, SRID, box and each member decoded in order |
| LwGeom.GetCollectionType | liblwgeom/lwgeom.c:1076-1097 | every type is held by a collection type; only the seven singleton types get a homogeneous one, every other type GEOMETRYCOLLECTION |
| LwGeom.MultiTypeTable | liblwgeom/lwgeom.c:498-516 | the MULTITYPE table agrees with lwtype_get_collectiontype on the singleton types except the triangle, and every non-zero entry is a collection type (also lines 1076-1097) |
| LwGeom.AsMulti | liblwgeom/lwgeom.c:518-555 | collections are cloned; a singleton with a MULTITYPE entry is wrapped with that type, its SRID and box, the member losing them; others are cloned |
| LwGeom.AsMultiKeepsGeometry | liblwgeom/lwgeom.c:518-555 | the member differs from the input only in SRID and box, which the wrapper carries, and promoting again clones |
| LwGeom.SetSRIDProperties | liblwgeom/lwgeom.c:1462-1478 | set_srid sets the root's SRID, leaves every collection member at any depth with SRID -1, changes only SRID fields, and is idempotent |
| LwGeom.SetSRID | liblwgeom/lwgeom.c:1462-1478 | the geometry gets the given SRID and keeps its type |
| LwGeom.CountRings | liblwgeom/lwgeom.c:1203-1249 | a geometry of known types always counts; an unknown type gives the unsupported-type error; points, lines, circular strings, multipoints and multilines have no rings |
| LwGeom.CountVertices | liblwgeom/lwgeom.c:1153-1198 | counts exactly when every type in the geometry is known, otherwise the unsupported-type error; a non-empty simple geometry has at least one vertex |
| LwGeom.Dimensionality | liblwgeom/lwgeom.c:1303-1359 | the dimensionality is at most 3; outside collections it exists exactly for the known types |
| LwGeom.MaxAtMost | liblwgeom/lwgeom.c:1303-1314 | when every member's dimensionality is at most a bound, so is the collection's maximum |
| LwGeom.SumResults | liblwgeom/lwgeom.c:1180-1189 | the member counts add up exactly when every member counts, and a failure is some member's failure |
| LwGeom.IsEmpty | liblwgeom/lwgeom.c:1251-1292 | fails exactly on an unknown type number; otherwise empty means no array or points, no rings, or no members |
| LwGeom.CountVerticesMultiPoint | liblwgeom/lwgeom.c:1153-1198 | a multipoint of non-empty points counts one vertex per member, and a line counts its points |
| LwGeom.SumResultsAppend | liblwgeom/lwgeom.c:1153-1198 | the counts over two runs of members add up, and the first error wins (also lines 1203-1249) |
| LwGeom.MultiPolygonRings | liblwgeom/lwgeom.c:1203-1249 | a multipolygon's ring count is the sum of its polygons' nrings |
| LwGeom.MaxResultsBounds | liblwgeom/lwgeom.c:1303-1314 | the collection maximum is at least every member's and is one of them unless there are none |
| LwGeom.DimensionalityBounds | liblwgeom/lwgeom.c:1303-1359 | dimensionality is at most 3, and a collection's is the largest of its members', 0 when empty |
| LwGeom.Same | liblwgeom/lwgeom.c:829-890 | different types, Z/M flags or cached boxes are not the same; otherwise the type's own test decides |
| LwGeom.SameReflexive | liblwgeom/lwgeom.c:829-890 | a point, line, triangle or polygon is the same as itself |
| LwGeom.DropSRID | liblwgeom/lwgeom.c:914-918 | the SRID flag is cleared and the SRID set to -1; nothing else changes |
| LwGeom.AddBBox | liblwgeom/lwgeom.c:906-911 | a cached box is kept; otherwise the computed box is stored and the box flag set |
| LwGeom.DropBBox | liblwgeom/lwgeom.c:893-898 | the box is released and the box flag cleared; nothing else changes |
| LwGeom.BBoxCache | liblwgeom/lwgeom.c:893-911 | adding a box twice is adding it once, and drop then add leaves the computed box flagged |
| LwHomogenize.FlattenIsLeaves | liblwgeom/lwhomogenize.c:212-247 | the corrected flattening succeeds exactly on supported trees and appends to each bucket that type's leaves in depth-first order, each with SRID -1 |
| LwHomogenize.OfTypeAppend | liblwgeom/lwhomogenize.c:212-247 | the leaves of one type over two runs are the two runs' leaves in order |
| LwHomogenize.Buckets.constructor | liblwgeom/lwhomogenize.c:122-125 | the three buckets start empty |
| LwHomogenize.Buckets.AddSubgeom | liblwgeom/lwhomogenize.c:212-247 | the buckets become the flattening of the geometry into them, or the call fails when the flattening does |
| LwHomogenize.Buckets.AddMembers | liblwgeom/lwhomogenize.c:235-240 | the member loop flattens every member in order |
| LwHomogenize.Part | liblwgeom/lwhomogenize.c:145-162 | an empty bucket adds no part, any other exactly one |
| LwHomogenize.AssembleShape | liblwgeom/lwhomogenize.c:133-209 | a mixed collection exactly when two or more buckets are non-empty, one part per non-empty bucket; an empty result exactly when all are empty; otherwise the one bucket's lone element or MULTI |
| LwHomogenize.CollectionHomogenize | liblwgeom/lwhomogenize.c:103-209 | an empty collection gives an empty one with its SRID; otherwise it fails exactly when flattening fails and else is the assembly of the buckets |
| LwHomogenize.Homogenize | liblwgeom/lwhomogenize.c:37-86 | empty geometries and points, lines and polygons are cloned; a one-member MULTI gives its member with the parent's SRID; a GEOMETRYCOLLECTION is homogenised; other types are errors |
| LwHomogenize.NestedCollectionAsWritten | liblwgeom/lwhomogenize.c:235-240 | as written a nested collection member is never flattened, while the corrected test flattens every supported one |
| LwHomogenize.NestedExampleAsWritten | liblwgeom/lwhomogenize.c:235-240 | GEOMETRYCOLLECTION(MULTIPOINT(POINT(0 0))) fails as written |
| LwHomogenize.NestedExampleFixed | liblwgeom/lwhomogenize.c:88-209 | with the correction the example becomes POINT(0 0) with SRID 4326 |
| LwGeodetic.InRangeBounds | liblwgeom/lwgeodetic.c:197-213 | the geodetic range is [-180, 180] by [-90, 90] in number order |
| LwGeodetic.CheckPtArray | liblwgeom/lwgeodetic.c:197-213 | false exactly when some point is out of range |
| LwGeodetic.CheckGeodetic | liblwgeom/lwgeodetic.c:215-272 | the loops over rings and members give exactly the recursive geodetic test, and an error on unsupported types |
| LwGeodetic.GeodeticMeaning | liblwgeom/lwgeodetic.c:197-272 | the check holds exactly when every point of every ring and member is in range |
| LwGeodetic.CountVertices | liblwgeom/lwgeodetic.c:279-346 | the loops give the recursive vertex count |
| LwGeodetic.VertexCountsAgree | liblwgeom/lwgeodetic.c:279-346 | this count agrees with lwgeom.c's whenever no point has an empty array |
| LwGeodetic.EmptyPointCountsDiffer | liblwgeom/lwgeodetic.c:311-317 | a point with an empty array counts 1 here and 0 in lwgeom.c |
| LwGeodetic.BoxSourcesFound | liblwgeom/lwgeodetic.c:33-193 | a box that is found comes from at least one non-empty array, and a collection's box is found exactly when a member's is |
| LwWktIn.ParserResult.SetError | liblwgeom/lwin_wkt.c:23-26 | the error code is stored with the message it indexes; nothing else changes |
| LwWktIn.Clamp | liblwgeom/lwin_wkt.c:29-38 | a long holds values in its range unchanged and saturates others, as strtol does |
| LwWktIn.Strtol | liblwgeom/lwin_wkt.c:29-38 | strtol's result always fits in a long |
| LwWktIn.CastToInt | liblwgeom/lwin_wkt.c:29-38 | the (int) cast always yields a 32-bit value and keeps values that already fit |
| LwWktIn.DecimalDigits | liblwgeom/lwin_wkt.c:29-38 | the decimal text of n is a non-empty run of digits whose value is n |
| LwWktIn.StrtolOfRun | liblwgeom/lwin_wkt.c:29-38 | strtol reads an optional minus sign and the longest run of digits, saturating |
| LwWktIn.StrtolDecimal | liblwgeom/lwin_wkt.c:29-38 | strtol reads back the digits of n after an optional minus sign, whatever follows |
| LwWktIn.ReadSridOfToken | liblwgeom/lwin_wkt.c:29-38 | wkt_lexer_read_srid skips "SRID=" and casts strtol of the rest to int |
| LwWktIn.ReadSridOfText | liblwgeom/lwin_wkt.c:29-38 | every int SRID written as "SRID=n;" reads back as n |
| LwWktIn.ReadSridWraps | liblwgeom/lwin_wkt.c:29-38 | SRIDs that differ by 2^32 read the same |
| LwWktIn.CastToIntWraps | liblwgeom/lwin_wkt.c:29-38 | the int cast keeps only the low 32 bits |
| LwWktIn.WktDimensionality | liblwgeom/lwin_wkt.c:40-57 | the scan sets Z and M exactly as their letters appear in the token |
| LwWktIn.DimsOfTokens | liblwgeom/lwin_wkt.c:40-57 | "Z", "M" and "ZM" in either case give their flags; no token gives none |
| LwWktIn.Coord2 | liblwgeom/lwin_wkt.c:90-99 | a parser coordinate with 2 dimensions, x and y in written order, z and m zero |
| LwWktIn.Coord3 | liblwgeom/lwin_wkt.c:106-118 | a parser coordinate with 3 dimensions, the three ordinates in written order, m zero |
| LwWktIn.Coord4 | liblwgeom/lwin_wkt.c:121-133 | a parser coordinate with 4 dimensions, the four ordinates in written order |
| LwWktIn.ReadSrid | liblwgeom/lwin_wkt.c:29-38 | the SRID read is always a 32-bit int, and 0 when there is no token |
| LwWktIn.StrtolOfDecimal | liblwgeom/lwin_wkt.c:36 | strtol of a decimal numeral is its value, saturated at LONG_MAX |
| LwWktIn.StoredInOrder | liblwgeom/lwin_wkt.c:134-161 | a coordinate stored in an array with its number of dimensions keeps its ordinates in written order, XYM taking the third as m |
| LwWktIn.AdjustedMeaning | liblwgeom/lwin_wkt.c:64-85 | the dimensionality step succeeds exactly when no flags are given or the counts agree; it keeps the points, and an XYZ array with an "M" token becomes XYM |
| LwWktIn.SetDimensionality | liblwgeom/lwin_wkt.c:64-85 | the array's Z/M are set in place exactly as the dimensionality step says; points and storage are kept |
| LwWktIn.AddCoord | liblwgeom/lwin_wkt.c:134-161 | no array, no action; a coordinate of another dimension count reports MIXDIMS and leaves the array; otherwise its point is appended |
| LwWktIn.PtArrayNew | liblwgeom/lwin_wkt.c:163-169 | a fresh array with Z for more than two dimensions and M for four, holding the one coordinate |
| LwWktIn.Report | liblwgeom/lwin_wkt.c:23-26 | a built geometry is handed back with the parse result unchanged; a failure records its code and message and hands back NULL |
| LwWktIn.PointOutcomeMeaning | liblwgeom/lwin_wkt.c:175-198 | a point is built exactly when there is no array, or the token agrees and the array holds one point |
| LwWktIn.PointNew | liblwgeom/lwin_wkt.c:175-198 | the constructor over the parser's array reports exactly the point outcome |
| LwWktIn.MultiPointOutcomeMeaning | liblwgeom/lwin_wkt.c:204-220 | a multipoint holds one point per array point, in order, and fails only on mixed dimensions |
| LwWktIn.MultipointNew | liblwgeom/lwin_wkt.c:204-220 | the constructor over the parser's array reports exactly the multipoint outcome |
| LwWktIn.StringOutcome | liblwgeom/lwin_wkt.c:228-291 | the line and circular string constructors fail only with MIXDIMS, MOREPOINTS or ODDPOINTS |
| LwWktIn.LinestringNew | liblwgeom/lwin_wkt.c:228-253 | the line constructor reports the string outcome with at least 2 points and no odd rule |
| LwWktIn.LineOutcomeMeaning | liblwgeom/lwin_wkt.c:228-253 | under PARSER_CHECK_MINPOINTS a line has at least two points; without it any count is accepted; a disagreeing token is MIXDIMS |
| LwWktIn.CircularstringNewAsWritten | liblwgeom/lwin_wkt.c:261-291 | as written, under PARSER_CHECK_ODD an odd number of points is rejected |
| LwWktIn.CircularstringNew | liblwgeom/lwin_wkt.c:261-291 | corrected: an even number of points is rejected, as the message states |
| LwWktIn.CircOddAsWritten | liblwgeom/lwin_wkt.c:282-287 | as written, every circular string built under PARSER_CHECK_ODD has an even number of points |
| LwWktIn.CircOddFixed | liblwgeom/lwin_wkt.c:282-287 | corrected, every one has an odd number of points, and at least three under PARSER_CHECK_MINPOINTS |
| LwWktIn.FivePointArcRejected | liblwgeom/lwin_wkt.c:282-287 | a five-point circular string is rejected as written with the "odd number of points" message and built by the corrected rule |
| LwWktIn.FinalizeOutcome | liblwgeom/lwin_wkt.c:293-325 | collection finalization fails only with MIXDIMS |
| LwWktIn.CollectionFinalize | liblwgeom/lwin_wkt.c:293-325 | reports exactly the finalization outcome |
| LwWktIn.FinalizeMeaning | liblwgeom/lwin_wkt.c:293-325 | a finalized collection has the requested type and keeps SRID, box, members and Z/M; the token must agree exactly for GEOMETRYCOLLECTION, by count otherwise |
| LwWktIn.FinalizeComparesCounts | liblwgeom/lwin_wkt.c:293-325 | a Z collection without a token is rejected, and a Z multi-geometry with an "M" token is accepted and stays Z |
| LwWktIn.CollectionAddGeom | liblwgeom/lwin_wkt.c:328-351 | no geometry, no action; no collection reports OTHER; a Z/M mismatch reports MIXDIMS; otherwise the geometry is appended |
| LwWktIn.CollectionNew | liblwgeom/lwin_wkt.c:353-370 | no geometry reports OTHER; otherwise an empty collection with the geometry's Z/M receives it |
| LwWktIn.ParsedSRIDRange | liblwgeom/lwin_wkt.c:372-386 | the SRID kept is the parsed one or -1 and below SRID_MAXIMUM; SRIDs from SRID_MAXIMUM up are dropped; other negatives are kept |
| LwWktIn.GeometryNew | liblwgeom/lwin_wkt.c:372-386 | fails exactly without a geometry; otherwise the result holds the geometry with the parsed SRID set as lwgeom_set_srid does |
| LwWktIn.GeometryNewSRID | liblwgeom/lwin_wkt.c:372-386 | the parse result carries the parsed SRID at its root, -1 in every member, and its shape unchanged |
| OldTypes.MakeTypeReadsBack | lwgeom/lwpoint.c:46-48 | the type byte lwgeom_makeType_full builds reads back, through the bit tests wktunparse.c uses, as the dimension count, SRID flag, simple type and box flag it was made from |
| OldTypes.FlatLength | lwgeom/lwpoint.c:119-130 | a point list with ndims ordinates per point flattens to npoints times ndims doubles |
| HexWkb.HexDigit | lwgeom/lwgeom_inout.c:876-987 | every nibble is written as one of the sixteen upper-case hex characters |
| HexWkb.DeparseHex | lwgeom/lwgeom_inout.c:876-987 | deparse_hex writes two hex characters per byte |
| HexWkb.ParseDeparse | lwgeom/lwgeom_inout.c:876-1102 | every byte survives deparse_hex then parse_hex, with the high nibble written first |
| HexWkb.DeparseParse | lwgeom/lwgeom_inout.c:876-1102 | every pair of hex characters survives parse_hex then deparse_hex: the text form is unique |
| HexWkb.ParseHex | lwgeom/lwgeom_inout.c:992-1102 | parse_hex gives the byte whose high nibble is the first character's value and whose low nibble is the second's |
| HexWkb.WkbDims | lwgeom/lwgeom_inout.c:814-821 | wkb_dims gives 2, 3 or 4 dimensions |
| HexWkb.WkbSimpleType | lwgeom/lwgeom_inout.c:824-827 | wkb_simpletype gives a type number below 16 |
| HexWkb.HexSpanWhole | lwgeom/lwgeom_inout.c:95-99 | the strspn test covers the whole input exactly when every character is a hex character |
| HexWkb.HexDecodeAt | lwgeom/lwgeom_inout.c:104-107 | byte t of the decoded input is parse_hex of characters 2t and 2t+1 |
| HexWkb.HexEncodeAt | lwgeom/lwgeom_inout.c:136-143 | characters 2t and 2t+1 of the text are deparse_hex of byte t |
| HexWkb.HexEncodeConcat | lwgeom/lwgeom_inout.c:136-143 | the text of two byte strings is the two texts one after the other |
| HexWkb.HexDecodeEncode | lwgeom/lwgeom_inout.c:89-148 | decoding the text of a byte string gives it back |
| HexWkb.HexEncodeDecode | lwgeom/lwgeom_inout.c:89-148 | encoding the bytes of an even-length hex text gives the text back |
| HexWkb.LwgeomIn | lwgeom/lwgeom_inout.c:87-107 | odd-length input and non-hex characters are rejected with their messages; any other input decodes to len/2 bytes |
| HexWkb.LwgeomOut | lwgeom/lwgeom_inout.c:136-147 | the output is the upper-case hex of the WKB followed by a NUL |
| HexWkb.OutThenIn | lwgeom/lwgeom_inout.c:75-148 | every text LWGEOM_out writes is accepted by LWGEOM_in and decodes to the same WKB |
| HexWkb.MirroredIsReversed | lwgeom/lwgeom_inout.c:798-810 | the byte flip is the element-wise reversal |
| HexWkb.MirroredTwice | lwgeom/lwgeom_inout.c:798-810 | flipping twice gives the bytes back |
| HexWkb.MirroredOrdered | lwgeom/lwgeom_inout.c:778-810 | reversing the bytes of one order gives the other order |
| HexWkb.RequiresFlip | lwgeom/lwgeom_inout.c:778-786 | flag 1 flips exactly on a big-endian machine, flag 0 exactly on a little-endian one, any other flag is an error |
| HexWkb.FlipReachesFlag | lwgeom/lwgeom_inout.c:778-786 | after the flip requiresflip asks for, the machine's bytes are in the order the flag names |
| HexWkb.ReadUInt32InOf | lwgeom/lwgeom_inout.c:614-616 | an integer written in one order reads back in that order |
| HexWkb.WordsInLittle | lwgeom/lwgeom_inout.c:618-620 | doubles least significant first are the machine layout of the Bytes module |
| HexWkb.FlippedAtTwice | lwgeom/lwgeom_inout.c:798-810 | flipping the same bytes twice gives them back |
| HexWkb.FlippedAtParts | lwgeom/lwgeom_inout.c:798-810 | the flipped bytes are reversed in place and nothing else moves |
| HexWkb.SwapChar | lwgeom/lwgeom_inout.c:788-795 | the two bytes are exchanged |
| HexWkb.FlipInt32 | lwgeom/lwgeom_inout.c:806-810 | the four bytes from i on are reversed in place |
| HexWkb.FlipDouble | lwgeom/lwgeom_inout.c:798-804 | the eight bytes from i on are reversed in place |
| HexWkb.FlipPoints | lwgeom/lwgeom_inout.c:829-858 | every point's 2, 3 or 4 doubles (by dims) are reversed in place, with the stride of the point |
| HexWkb.FlipWordsIn | lwgeom/lwgeom_inout.c:829-858 | flipping a run of doubles written in one order gives the run in the other order |
| HexWkb.FlipWordsTwice | lwgeom/lwgeom_inout.c:829-858 | flipping the doubles of a run twice gives the run back |
| HexWkb.ConstructWkbType | lwgeom/lwgeom_inout.c:860-868 | the simple type and the dimension count read back through wkb_dims and wkb_simpletype, and the low 30 bits are the simple type's |
| HexWkb.TypeWord | lwgeom/lwgeom_inout.c:814-827 | wkb_dims(constructWKBType(t, d)) = d and wkb_simpletype(...) = t (also lines 860-868) |
| HexWkb.WkbPointHeader | lwgeom/lwgeom_inout.c:588-623 | a point's WKB is 5 + 8·ndims bytes, starting with the endian flag and the point type word |
| HexWkb.WkbLineHeader | lwgeom/lwgeom_inout.c:625-651 | a line's WKB is 9 + 8·ndims·npoints bytes, with the flag, type word and point count |
| HexWkb.WkbPolyHeader | lwgeom/lwgeom_inout.c:653-703 | a polygon's WKB is 9 + 8·ndims·total_points + 4·nrings bytes, with the flag, type word and ring count |
| HexWkb.SumPoints | lwgeom/lwgeom_inout.c:664-667 | the loop sums the points of all rings |
| HexWkb.PutRings | lwgeom/lwgeom_inout.c:688-700 | the ring loop writes each ring's count and ordinates in the flag's order and leaves the bytes after them alone |
| HexWkb.PointToWkb | lwgeom/lwgeom_inout.c:588-623 | fails exactly on an endian flag other than 0 or 1; otherwise the bytes are the point layout |
| HexWkb.LineToWkb | lwgeom/lwgeom_inout.c:625-651 | fails exactly on an invalid flag; otherwise the bytes are the line layout |
| HexWkb.PolyToWkb | lwgeom/lwgeom_inout.c:653-703 | fails exactly on an invalid flag; otherwise the bytes are the polygon layout |
| WktUnparse.ReadInt | lwgeom/wktunparse.c:110-138 | read_int yields a 32-bit value from four bytes in the machine's order |
| WktUnparse.CountVerbatim | lwgeom/wktunparse.c:110-138 | the integer read from four bytes writes back as the same four bytes (also lines 321-323) |
| WktUnparse.KeywordPlain | lwgeom/wktunparse.c:230-277 | every keyword is at most 18 characters, with no NUL and no parentheses |
| WktUnparse.PointText | lwgeom/wktunparse.c:158-167 | a point's text consumes bytes and keeps the dimension count |
| WktUnparse.WktAt | lwgeom/wktunparse.c:216-280 | a geometry's text consumes its bytes and finds a dimension count of 2 to 5 |
| WktUnparse.Coll | lwgeom/wktunparse.c:176-192 | a collection consumes at least its 4-byte count |
| WktUnparse.Unparser.constructor | lwgeom/wktunparse.c:289-291 | a fresh buffer with nothing written |
| WktUnparse.Unparser.Ensure | lwgeom/wktunparse.c:69-81 | the buffer doubles once when pos + chars reaches its length, keeping the written prefix; afterwards there is room for chars more |
| WktUnparse.Unparser.ToEnd | lwgeom/wktunparse.c:83-87 | the write position moves to the end of the text written |
| WktUnparse.Unparser.WriteStr | lwgeom/wktunparse.c:89-93 | the text is appended |
| WktUnparse.Unparser.WriteDouble | lwgeom/wktunparse.c:95-102 | the number's text is appended |
| WktUnparse.Unparser.WriteInt | lwgeom/wktunparse.c:104-108 | the decimal text of the integer is appended |
| WktUnparse.Unparser.OutputPoint | lwgeom/wktunparse.c:158-167 | the point's ordinates are appended, separated by spaces, and the cursor moves past them |
| WktUnparse.Unparser.OutputSingle | lwgeom/wktunparse.c:169-174 | one point in parentheses is appended |
| WktUnparse.Unparser.OutputCollection | lwgeom/wktunparse.c:176-192 | a count of 0 appends " EMPTY"; otherwise the items in parentheses, separated by commas |
| WktUnparse.Unparser.OutputCollection2 | lwgeom/wktunparse.c:194-196 | a point list is written as a collection of points |
| WktUnparse.Unparser.OutputMultipoint | lwgeom/wktunparse.c:201-214 | a multipoint member that is a plain or integer point is written as bare ordinates, anything else in full |
| WktUnparse.Unparser.OutputWkt | lwgeom/wktunparse.c:216-280 | the text appended is the specified text of the geometry, with the SRID prefix when flagged and the box skipped |
| WktUnparse.Unparser.WriteHeader | lwgeom/wktunparse.c:218-228 | dims = ((type & 0x30) >> 4) + 2, the 16 box bytes are skipped when 0x80 is set, and "SRID=n;" is written when 0x40 is set |
| WktUnparse.Unparser.WriteSrid | lwgeom/wktunparse.c:227 | "SRID=", the SRID's decimal text and ";" are appended, and nothing else of the unparser changes (also line 349) |
| WktUnparse.Unparser.WriteOrdinate | lwgeom/wktunparse.c:158-165 | one turn of output_point's loop appends the ordinate's text, and a space unless it is the last |
| WktUnparse.Unparser.PutHex | lwgeom/wktunparse.c:300-308 | two hex characters of the byte, high nibble first, are stored in the buffer in place and the position advances by 2 |
| WktUnparse.Unparser.WriteKeyword | lwgeom/wktunparse.c:230-277 | the keyword is written unless suppressed |
| WktUnparse.Unparser.WriteWkbBytes | lwgeom/wktunparse.c:300-308 | two upper-case hex characters per byte, high nibble first |
| WktUnparse.Unparser.WriteWkbInt | lwgeom/wktunparse.c:321-323 | the integer's four machine bytes in hex |
| WktUnparse.Unparser.OutputWkbPoint | lwgeom/wktunparse.c:310-319 | the point's ordinate bytes are written in hex and the cursor moves past them |
| WktUnparse.Unparser.OutputWkbCollection | lwgeom/wktunparse.c:325-330 | the count, then each item's hex |
| WktUnparse.Unparser.OutputWkb | lwgeom/wktunparse.c:337-412 | the hex appended is the specified WKB of the geometry |
| WktUnparse.Unparser.WriteWkbHead | lwgeom/wktunparse.c:352-368 | the endian byte (1 on little-endian machines) and the type word with 0x80000000 for dims 3 and 0x40000000 for dims 4 |
| WktUnparse.Unparser.Terminate | lwgeom/wktunparse.c:426-427 | a NUL follows the text written |
| WktUnparse.ScanConcat | lwgeom/wktunparse.c:176-192 | scanning two texts one after the other is scanning the first, then the second from where it ended |
| WktUnparse.WktAtNested | lwgeom/wktunparse.c:176-280 | every text output_wkt writes has no NUL and balanced parentheses |
| WktUnparse.PointWkt | lwgeom/wktunparse.c:158-174 | a plain 2D point is written as POINT(x y) (also lines 216-280) |
| WktUnparse.TypeWordAgrees | lwgeom/wktunparse.c:352-366 | the type word output_wkb writes is the one constructWKBType builds |
| WktUnparse.WkbPointAgrees | lwgeom/wktunparse.c:337-412 | the hex output_wkb writes for a point is the hex of lwpoint_to_wkb's layout in the machine's order |
| WktUnparse.UnparseWkt | lwgeom/wktunparse.c:282-296 | NULL exactly for NULL input; otherwise the specified text, well nested |
| WktUnparse.UnparseWkb | lwgeom/wktunparse.c:414-430 | NULL exactly for NULL input; otherwise the specified hex of the geometry |
| OldGeom.Geom.constructor | lwgeom/lwpoint.c:142-149 | a fresh struct holds exactly the header, point array, member array and count it is given |
| OldGeom.Heads | lwgeom/lwcollection.c:143-154 | the header list has one entry per struct, each that struct's header |
| OldGeom.CopiesHeads | lwgeom/lwpoint.c:232-239 | struct copies made by memcpy carry the headers of what they copy |
| OldGeom.SridBytes | lwgeom/lwpoint.c:38-39 | the SRID takes four bytes exactly when it is not -1 (also lines 55-59) |
| OldGeom.PointSizesAgree | lwgeom/lwpoint.c:31-44 | the size serialize_buf reports equals serialize_size exactly when the dimension count is 0, 2, 3 or 4 (also lines 119-130) |
| OldGeom.PointSerializeBuf | lwgeom/lwpoint.c:31-69 | writes type byte, optional box, optional SRID and point 0's ordinates; the reported size equals lwpoint_serialize_size; nothing after it changes |
| OldGeom.PutHead | lwgeom/lwpoint.c:46-59 | the head through the advancing cursor: type byte, box bytes, SRID when not -1; the cursor ends after them |
| OldGeom.PutRest | lwgeom/lwpoint.c:63-66 | bytes copied at the cursor land there, the cursor advances by their length, the rest is untouched |
| OldGeom.PointDecodeShape | lwgeom/lwpoint.c:156-208 | decoding fails exactly for a non-point type byte; a decoded point has one point of the type byte's dimension count |
| OldGeom.PointRoundTrip | lwgeom/lwpoint.c:31-69 | lwpoint_deserialize reads back the header, SRID and point that lwpoint_serialize_buf wrote (also lines 156-208) |
| OldGeom.PointDeserialize | lwgeom/lwpoint.c:156-208 | NULL exactly for a non-point type byte, else a fresh struct with the decoded header and point array |
| OldGeom.PointConstruct | lwgeom/lwpoint.c:134-150 | NULL exactly for a NULL array; otherwise a fresh POINT struct with the given dimensions, SRID and array, hasbbox left as the allocation held it |
| OldGeom.Clone | lwgeom/lwpoint.c:232-239 | the clone is a fresh struct with the same header sharing the same point array and member array |
| OldGeom.Reset | lwgeom/lwpoint.c:274-275 | a reset member keeps type and dimensions, loses its SRID and its box flag |
| OldGeom.AddedType | lwgeom/lwpoint.c:278-279 | the result is a MULTIPOINT exactly when the addition is a point, otherwise a GEOMETRYCOLLECTION (also lwgeom/lwmpoint.c:79-80) |
| OldGeom.Inserted | lwgeom/lwcollection.c:177-187 | the inserted element sits at the position, earlier elements keep their index, later ones move up by one |
| OldGeom.Removed | lwgeom/lwcollection.c:177-187 | removing an element shortens the sequence by one |
| OldGeom.RemoveInserted | lwgeom/lwcollection.c:177-187 | removing what was inserted gives the original members back |
| OldGeom.PairIsInsertion | lwgeom/lwpoint.c:262-275 | lwpoint_add's pair is the target with the addition inserted in front for 0 and behind for -1, both reset |
| OldGeom.PointAdd | lwgeom/lwpoint.c:246-285 | errors exactly when where is neither 0 nor -1; otherwise a new two-member collection of reset clones in that order, with the target's dimensions and SRID and a box flag when either had one |
| OldGeom.ResetPair | lwgeom/lwpoint.c:262-275 | a fresh two-slot array of fresh clones of a and b, in that order, each reset |
| OldGeom.CollectionConstruct | lwgeom/lwcollection.c:127-140 | a fresh struct with the given header and the given member array itself, not a copy |
| OldGeom.AddAsWrittenOnlyAppends | lwgeom/lwcollection.c:167-173 | as written, with where a uint32, only -1 (append) is accepted, and it appends at the end (also lwgeom/lwmpoint.c:57-63) |
| OldGeom.AddPosition | lwgeom/lwcollection.c:161-190 | the intended check accepts exactly -1 and every position from 0 to ngeoms; a position is kept as given, and every accepted one lies within [0, ngeoms] |
| OldGeom.PrependRejectedAsWritten | lwgeom/lwcollection.c:157-168 | prepending (where 0) is refused as written and accepted as the comment intends |
| OldGeom.ClonedInsert | lwgeom/lwcollection.c:177-187 | the new member array holds ngeoms + 1 fresh clones: the members before the position, the addition, then the rest |
| OldGeom.CloneInto | lwgeom/lwcollection.c:179-187 | the clone loop fills exactly the target slots with fresh copies of the shifted source slots and leaves every other slot |
| OldGeom.CollectionAdd | lwgeom/lwcollection.c:160-194 | errors exactly when the position is out of range; otherwise a new GEOMETRYCOLLECTION whose members are clones of the target's with the addition at its position |
| OldGeom.MPointAdd | lwgeom/lwmpoint.c:50-87 | as CollectionAdd, with a MULTIPOINT result when the addition is a point |
| OldGeom.AddedMembersKeepOrder | lwgeom/lwcollection.c:177-187 | the result's member headers are the target's with the addition inserted; removing it gives the target's back in order |
| OldGeom.CollectionCloneAsWritten | lwgeom/lwcollection.c:142-154 | as written the clone shares the source's member array and the source's slots are overwritten with fresh copies |
| OldGeom.CollectionClone | lwgeom/lwcollection.c:142-154 | the intended clone: a fresh member array of fresh copies of the members, the source untouched |
| OldGeom.CloneReplacesSourceMember | lwgeom/lwcollection.c:147-152 | after the clone as written, a one-member source no longer holds its original member |
| OldGeom.ConcatLength | lwgeom/lwcollection.c:56-57 | the members laid out in turn are as long as their summed sizes, and no member exceeds the sum (also lines 101-106) |
| OldGeom.Overlay | lwgeom/lwcollection.c:101-106 | writing every member at one offset leaves a buffer of the original length |
| OldGeom.CollHeadBytes | lwgeom/lwcollection.c:74-99 | the collection head is 5 bytes plus the box plus the SRID bytes |
| OldGeom.PutMembersAtOneOffset | lwgeom/lwcollection.c:101-106 | as written: the sizes are summed, but every member is written at the same offset, giving the Overlay of the members (also lwgeom/lwmpoly.c:91-96) |
| OldGeom.PutMembersInTurn | lwgeom/lwcollection.c:101-106 | as intended: the members one after the other, with the cursor ending after them |
| OldGeom.TotalPrefix | lwgeom/lwcollection.c:56-57 | the members before any index sum to no more than all of them |
| OldGeom.PutCollection | lwgeom/lwcollection.c:74-106 | the head bytes, then the members in turn or overlaid, depending on the loop |
| OldGeom.CollectionSerializeBufAsWritten | lwgeom/lwcollection.c:65-109 | the reported size equals lwcollection_serialize_size, but the bytes after the head are the members overlaid |
| OldGeom.CollectionSerializeBuf | lwgeom/lwcollection.c:46-109 | as intended: exactly the reported size, the head followed by the members in turn, nothing after it changed |
| OldGeom.MPolySerializeBufAsWritten | lwgeom/lwmpoly.c:63-99 | the reported size equals lwmpoly_serialize_size, but the polygons are overlaid |
| OldGeom.MPolySerializeBuf | lwgeom/lwmpoly.c:46-99 | as intended: the boxless head followed by the polygons in turn, exactly the reported size |
| OldGeom.OverlayLosesFirstMember | lwgeom/lwcollection.c:101-106 | two equal-length different members written at one offset leave the second where the first belongs, unlike the layout in turn |
| OldGeom.OverlayStep | lwgeom/lwcollection.c:102-106 | one loop round copies the first member over the start of the buffer |
| OldGeom.ConcatPair | lwgeom/lwcollection.c:102-106 | two members laid out in turn are their concatenation |
| OldGeom.MemberStructs | lwgeom/lwcollection.c:24-35 | one fresh member struct per header, in order |
| OldGeom.MemberHeads | lwgeom/lwcollection.c:32-35 | one decoded header per member, each the decoder's result on that member's bytes |
| OldGeom.CollectionDeserialize | lwgeom/lwcollection.c:6-38 | NULL exactly unless the type byte is COLLECTION; otherwise a fresh struct with the inspected SRID and one decoded member per sub-geometry |
| OldGeom.MPointDeserialize | lwgeom/lwmpoint.c:6-43 | succeeds exactly for a MULTIPOINT type byte whose members all decode as points of its dimension count |
| OldGeom.DecodePoints | lwgeom/lwmpoint.c:31-40 | the member loop succeeds exactly when every member is a point of the given dimension count, yielding one per member |
| OldGeom.MPolyDeserialize | lwgeom/lwmpoly.c:6-43 | succeeds exactly for a MULTIPOLYGON type byte whose members all decode as polygons of its dimension count |
| OldGeom.CollectionComputeBox | lwgeom/lwcollection.c:111-125 | the loop computes the fold of the member boxes that CollectionBox specifies |
| OldGeom.FoldFailsOnMissing | lwgeom/lwcollection.c:119-123 | a member without a box leaves the collection without one |
| OldGeom.FoldSucceedsOnAll | lwgeom/lwcollection.c:117-124 | with a union that never fails, the fold succeeds when every member has a box |
| OldGeom.CollectionBoxIff | lwgeom/lwcollection.c:111-125 | a box exists only for a non-empty collection whose members all have one, and exactly then when union never fails |
| PgLwgeom.GetSrid | postgis/lwgeom_pg.c:391-405 | the SRID is -1 without the SRID flag, otherwise the int32 stored after the box |
| PgLwgeom.SridField | postgis/lwgeom_pg.c:250-254 | the SRID occupies four bytes exactly when it is known (also lines 275-279) |
| PgLwgeom.WithSridParts | postgis/lwgeom_pg.c:292-385 | setting the SRID keeps the kind, box and rest, reads back as the SRID set, and changes the size by the SRID bytes |
| PgLwgeom.DataParts | postgis/lwgeom_pg.c:300-339 | the data is the box, then the SRID bytes, then the rest |
| PgLwgeom.WithOwnSrid | postgis/lwgeom_pg.c:305-313 | setting the SRID a geometry already reports gives it back unchanged (also lines 347-351) |
| PgLwgeom.WithSridTwice | postgis/lwgeom_pg.c:292-385 | setting the SRID twice equals setting only the second |
| PgLwgeom.SetSrid | postgis/lwgeom_pg.c:292-385 | the result is the geometry with the new SRID; overwriting keeps size and type; no SRID and -1 gives an unchanged copy |
| PgLwgeom.OverwriteSrid | postgis/lwgeom_pg.c:307-313 | copying the struct and overwriting the SRID bytes after the box gives the geometry with the new SRID, same size and type |
| PgLwgeom.DropSrid | postgis/lwgeom_pg.c:314-341 | the shortened copy without the SRID flag and bytes is the geometry with the unknown SRID |
| PgLwgeom.InsertSrid | postgis/lwgeom_pg.c:352-382 | the lengthened copy with the SRID flag, box, new SRID and rest is the geometry with that SRID |
| PgLwgeom.WithoutBoxParts | postgis/lwgeom_pg.c:419-441 | dropping the box clears the flag, shrinks the struct by the box exactly when it had one, keeps kind, SRID and rest, and is idempotent |
| PgLwgeom.DropBbox | postgis/lwgeom_pg.c:419-441 | the rebuilt struct is the geometry without its box; without a box it is an unchanged copy |
| PgLwgeom.ConstructedParts | postgis/lwgeom_pg.c:220-283 | the constructed geometry reports the given SRID, has a box exactly when one is wanted, and keeps the input's kind and the bytes past its header |
| PgLwgeom.ConstructThenSetSrid | postgis/lwgeom_pg.c:220-385 | setting the SRID of a constructed geometry is constructing it with that SRID |
| PgLwgeom.ConstructThenDropBox | postgis/lwgeom_pg.c:220-283 | dropping the box of a constructed geometry is constructing it without a box (also lines 419-441) |
| PgLwgeom.Construct | postgis/lwgeom_pg.c:220-283 | the new struct skips the input's box and SRID and carries the box when wanted or worth caching |
| PgLwgeom.PutData | postgis/lwgeom_pg.c:269-280 | the output holds the box, the SRID bytes and the remaining bytes in turn |
| PgLwgeom.Serialize | postgis/lwgeom_pg.c:145-176 | succeeds exactly when the written size equals the computed size; the varlena size is then four more than that |
| GeosClean.Appended | postgis/lwgeom_geos_clean.c:214-217 | appending one of the array's own points keeps it well formed with the same dimensions and the point at the end |
| GeosClean.Close2d | postgis/lwgeom_geos_clean.c:204-221 | the result is closed in 2D and is the ring itself when already closed, else the ring with its first point appended |
| GeosClean.FriendlyRingProps | postgis/lwgeom_geos_clean.c:223-251 | the repaired ring is closed in 2D, has at least four points, extends the input only with copies of its first point, and a second repair changes nothing |
| GeosClean.RingMakeFriendly | postgis/lwgeom_geos_clean.c:223-251 | the close-then-pad loop computes the repaired ring |
| GeosClean.RingMakeValidAgrees | postgis/lwgeom_geos.c:3976-4004 | ring_make_valid's single padding step gives the repaired ring exactly when the closed ring has at least three points |
| GeosClean.RingMakeValidPadsOnce | postgis/lwgeom_geos.c:3989-4000 | a two-point closed ring comes out of ring_make_valid with three points, where the loop gives four |
| GeosClean.LineRepaired | postgis/lwgeom_geos_clean.c:299-325 | lines other than one-point lines are unchanged; a one-point line gets its point duplicated (GEOS-friendly) or becomes a point with the line's SRID (make-valid) (also postgis/lwgeom_geos.c:4072-4090) |
| GeosClean.Repaired | postgis/lwgeom_geos_clean.c:159-196 | a failure is always the unsupported-type error (also postgis/lwgeom_geos.c:3912-3949) |
| GeosClean.CollectionRepaired | postgis/lwgeom_geos_clean.c:327-360 | a failure in any member is the unsupported-type error (also postgis/lwgeom_geos.c:4092-4125) |
| GeosClean.RepairedErrIff | postgis/lwgeom_geos_clean.c:159-196 | a repair fails exactly when the geometry holds a type the switch refuses, at any depth (also lines 327-360) |
| GeosClean.RepairedReady | postgis/lwgeom_geos_clean.c:159-360 | a repaired geometry is ready for GEOS, keeps its SRID, its type (except a one-point line made valid) and its member count, and repairing it again changes nothing |
| GeosClean.PolyMakeFriendly | postgis/lwgeom_geos_clean.c:253-297 | a polygon without rings comes back as it is; otherwise the ring loop yields the polygon with every ring repaired |
| GeosClean.PolyMakeValid | postgis/lwgeom_geos.c:4006-4070 | the ring loop yields the polygon with every ring repaired, in order |
| GeosClean.MakeGeosFriendly | postgis/lwgeom_geos_clean.c:159-196 | the dispatch computes the GEOS-friendly repair |
| GeosClean.CollectionMakeFriendly | postgis/lwgeom_geos_clean.c:327-360 | the member loop rebuilds the collection without its box from the repaired members |
| GeosClean.MakeValidGeom | postgis/lwgeom_geos.c:3912-3949 | the dispatch computes the make-valid repair |
| GeosClean.CollectionMakeValid | postgis/lwgeom_geos.c:4092-4125 | the member loop rebuilds the collection without its box from the members made valid |
| GeosParams.TokenEnd | postgis/lwgeom_geos.c:1109 | a token runs up to the first space or the end of the string, and holds no space |
| GeosParams.IndexOf | postgis/lwgeom_geos.c:1114 | strchr finds the first occurrence, or reports none when the character is absent |
| GeosParams.ApplyAllOkIff | postgis/lwgeom_geos.c:1106-1199 | a parameter string is accepted exactly when each of its tokens is |
| GeosParams.ApplyAllConcat | postgis/lwgeom_geos.c:1106-1199 | applying two runs of tokens is applying the first, then the second to its result |
| GeosParams.TokenEndConcat | postgis/lwgeom_geos.c:1109 | a token ends where a space joins a second string on, just as in the first string alone |
| GeosParams.TokensConcat | postgis/lwgeom_geos.c:1106-1110 | strings joined by a space tokenize as the first's tokens followed by the second's |
| GeosParams.WordThenRest | postgis/lwgeom_geos.c:1106-1110 | a string starting with a word has that word as its first token |
| GeosParams.LaterTokenWins | postgis/lwgeom_geos.c:1126-1190 | a later token overrides what earlier tokens set: one more token is the earlier settings with that token applied |
| GeosParams.FindChar | postgis/lwgeom_geos.c:1114 | the scan stops at the first position holding the character, or at the end |
| GeosParams.IndexOfAt | postgis/lwgeom_geos.c:1114 | the first position holding the character is IndexOf |
| GeosParams.ParseBufferParams | postgis/lwgeom_geos.c:1099-1205 | without a parameter argument the defaults; otherwise the settings the tokens select in order, or the first refused token's error |
| GeosParams.Tokens | postgis/lwgeom_geos.c:1106-1110 | strtok's tokens are non-empty and hold no space |
| GeosParams.ApplyParam | postgis/lwgeom_geos.c:1113-1197 | a token is accepted only with a non-empty value after '=' and a known key, then changes only what that key sets; otherwise one of the three error messages |
| GeosParams.Atoi | postgis/lwgeom_geos.c:1189 | atoi's result assigned to quadsegs is a 32-bit int |
| GeosParams.AtoiOfDecimal | postgis/lwgeom_geos.c:1189 | a signed decimal numeral in int range reads as its value |
| GeosParams.AtoiWraps | postgis/lwgeom_geos.c:1189 | numerals that differ by 2^32 and stay below LONG_MAX read as the same int |
| GeosParams.ApplyAll | postgis/lwgeom_geos.c:1106-1199 | an accepted run of tokens changes only the settings its keys name; a rejected one gives one of the three error messages |
| GeosParams.BufferParamsOf | postgis/lwgeom_geos.c:1099-1205 | the accepted parameter string changes only the defaults its tokens name; otherwise one of the three error messages |
| GeosParams.TokenStep | postgis/lwgeom_geos.c:1109-1122 | a token running to the next space is the next token applied |
| GeosParams.TokenEndAt | postgis/lwgeom_geos.c:1109 | a token ends at the first space |
| GeosParams.PresentCount | postgis/lwgeom_geos.c:407-443 | no more of the first n elements are present than n |
| GeosParams.PresentCountMono | postgis/lwgeom_geos.c:407-443 | the count of present elements grows with the prefix |
| GeosParams.NoBitmapAllPresent | postgis/lwgeom_geos.c:410 | without a NULL bitmap every element is present |
| GeosParams.FirstNonPolygonal | postgis/lwgeom_geos.c:426-430 | the values before the result are polygonal and the value at it is not |
| GeosParams.Examined | postgis/lwgeom_geos.c:407-430 | the walk reads no more values than there are |
| GeosParams.UnionScan | postgis/lwgeom_geos.c:379-443 | no elements give NULL, one element gives itself (or NULL when it is NULL), more give the outcome of the walk |
| GeosParams.WalkArray | postgis/lwgeom_geos.c:404-443 | the walk reports a mixed-SRID error exactly when a value read has another SRID than the first, otherwise whether all are polygonal with the first SRID and Z flag |
| GeosParams.Visit | postgis/lwgeom_geos.c:410-431 | reading one value either ends the walk with its outcome or keeps the walk's invariant one value further |
| GeosParams.ExaminedAll | postgis/lwgeom_geos.c:407-445 | when every value is polygonal the walk reads them all and reports all polygonal |
| GeosParams.TestBit | postgis/lwgeom_geos.c:410 | an element is read exactly when its bit is set, and then counted |
| GeosParams.NextElement | postgis/lwgeom_geos.c:410-442 | one step of the array walk reads exactly the present elements, counts them, and moves the bit mask on to the next element |
| GeosParams.NextBit | postgis/lwgeom_geos.c:433-442 | the next element's bit is the next bit of the byte, or bit 0 of the next byte after bit 7 |
| GeosParams.AdvanceMask | postgis/lwgeom_geos.c:433-442 | doubling the mask and moving on after 0x80 gives the mask and byte of the next element |
| GeosParams.RelatePattern | postgis/lwgeom_geos.c:3002-3009 | the pattern keeps its length, with each character upper-cased if it is 't' or 'f' |
| GeosParams.RelatePatternProps | postgis/lwgeom_geos.c:3002-3009 | no lower-case 't' or 'f' is left, every other character is kept, and upper-casing again changes nothing |
| GeosParams.UppercasePattern | postgis/lwgeom_geos.c:3005-3009 | the in-place loop leaves the relate pattern in the array |
| PrepCache.Step | lwgeom/lwgeom_geos_c.c:3594-3636 | after a call the cache holds the new key; anything prepared was prepared under that same key before, from this geometry or kept from the cache |
| PrepCache.Run | lwgeom/lwgeom_geos_c.c:3594-3636 | after a run of calls a cache exists exactly when there was a call, holding the last call's key |
| PrepCache.PreparedUnderKey | lwgeom/lwgeom_geos_c.c:3611-3633 | whatever is prepared came from a geometry passed under the current key, and every later call used that key |
| PrepCache.SecondCallPrepares | lwgeom/lwgeom_geos_c.c:3602-3619 | two consecutive calls with the same key leave a prepared geometry |
| PrepCache.NewKeyClears | lwgeom/lwgeom_geos_c.c:3625-3633 | a call with another key takes that key and drops the prepared geometry |
| PrepCache.PreparedKept | lwgeom/lwgeom_geos_c.c:3611-3623 | once prepared, further calls under the same key keep the same prepared geometry |
| PrepCache.PreparedGeomCache.constructor | lwgeom/lwgeom_geos_c.c:3602-3610 | a new cache holds the key and nothing prepared |
| PrepCache.GetPreparedGeometryCache | lwgeom/lwgeom_geos_c.c:3594-3636 | creates the cache when there is none and otherwise updates it in place; the new state is one Step from the old |
| PrepCache.CheckNotCollection | lwgeom/lwgeom_geos_c.c:1228-1235 | an error exactly when either argument is a GEOMETRYCOLLECTION |
| Gml.Precision | postgis/lwgeom_gml.c:73 | the precision is 15 when absent and otherwise clamped into [0, 15] (also lines 89-95) |
| Gml.SrsFor | postgis/lwgeom_gml.c:102-104 | no srsName for SRID -1; otherwise the lookup, long form when option bit 1 is set and short form otherwise |
| Gml.DialectOf | postgis/lwgeom_gml.c:106-111 | version 2 selects GML 2; otherwise GML 3, with deegree axis order exactly when option bit 16 is set |
| Gml.AsGml | postgis/lwgeom_gml.c:64-125 | a version other than 2 or 3 is an error before anything else; a NULL geometry gives NULL; otherwise the geometry rendered with the normalised precision and srsName |
| Gml.Render | postgis/lwgeom_gml.c:134-169 | fails exactly when GML 2 meets a type it does not write, with the type error (also lines 494-522) |
| Gml.SrsOnOutermost | postgis/lwgeom_gml.c:362-424 | the srsName appears only in the outermost tag: with and without it the text differs only there (also lines 727-789) |
| Gml.SwapXY | postgis/lwgeom_gml.c:822-838 | x and y exchanged, the other ordinates kept |
| Gml.DeegreeSwapsAxes | postgis/lwgeom_gml.c:810-858 | deegree's order writes every point as plain GML 3 does with x and y exchanged |
| Gml.TagSizes | postgis/lwgeom_gml.c:172-179 | each size figure is the sizeof of the literal the C code measures (also lines 211-218, 250-265) |
| Gml.TupleLen | postgis/lwgeom_gml.c:442-484 | one written point fits the width pointArray_GMLsize allows for it (also lines 928-935) |
| Gml.CoordsLen | postgis/lwgeom_gml.c:442-484 | the coordinates take at most that width per point (also lines 810-858) |
| Gml.PointArrayFits | postgis/lwgeom_gml.c:928-935 | with ordinates of at most digs plus precision characters, pointArray_GMLsize covers the coordinates |
| Gml.PointFits | postgis/lwgeom_gml.c:172-196 | the point size leaves room for the point element and its NUL (also lines 525-549) |
| Gml.LineFits | postgis/lwgeom_gml.c:211-235 | the line size covers the line, with room for the NUL except for GML 3 without srsName and no spare byte (also lines 565-593) |
| Gml.InteriorsFit | postgis/lwgeom_gml.c:250-290 | the interior rings take at most their tags and their point array size each (also lines 609-655) |
| Gml.RingTagLens | postgis/lwgeom_gml.c:250-265 | the ring tags take 111 characters in GML 2 and 89 in GML 3 (also lines 609-630) |
| Gml.PolygonFits | postgis/lwgeom_gml.c:250-290 | the polygon size leaves room for the polygon and its NUL (also lines 609-655) |
| Gml.CollectionFits | postgis/lwgeom_gml.c:310-424 | the inspected size leaves room for the collection and its NUL (also lines 675-789) |
| Gml.MembersFit | postgis/lwgeom_gml.c:330-350 | the members take no more than the figures added for them (also lines 690-716) |
| Gml.MemberFits | postgis/lwgeom_gml.c:330-350 | each member inside its member element fits the figure added for it (also lines 690-716) |
| Gml.OutputFits | postgis/lwgeom_gml.c:64-125 | with narrow enough ordinates and one spare byte on a GML 3 line, the allocated size holds the text and its NUL |
| Gml.NeededSizeFits | postgis/lwgeom_gml.c:64-125 | with the corrected figures the output and its NUL always fit (also lines 928-935) |
| Gml.EmptyCurveFillsBuffer | postgis/lwgeom_gml.c:565-593 | a GML 3 line without points or srsName is exactly as long as its buffer, so the NUL lands past the end |
| Gml.WideNumberOverflows | postgis/lwgeom_gml.c:172-196 | POINT(2e31 2e31) at precision 0 in GML 2 gives 123 characters for 100 allocated bytes (also lines 442-484, 928-935) |
| Gml.WroteThen | postgis/lwgeom_gml.c:182-196 | two texts written one after the other through the advancing pointer leave their concatenation at the start (also lines 535-549) |
| Gml.WroteThenAt | postgis/lwgeom_gml.c:182-196 | the same, with the second write's offset the length of the first |
| Gml.Sprintf | postgis/lwgeom_gml.c:186-193 | sprintf stores the text at the pointer, changes nothing else of the buffer and returns its length |
| Gml.SprintfMore | postgis/lwgeom_gml.c:186-193 | a further sprintf extends the text already written by its own |
| Gml.CoordsStep | postgis/lwgeom_gml.c:442-484 | one more turn of the point loop appends that point's tuple to the coordinates so far (also lines 810-858) |
| Gml.PutNextPoint | postgis/lwgeom_gml.c:442-484 | one turn of the point loop writes the next point's tuple after the earlier ones (also lines 810-858) |
| Gml.PutPointArray | postgis/lwgeom_gml.c:442-484 | pointArray_toGML2 and pointArray_toGML3 write exactly the coordinate text and return its length (also lines 810-858) |
| Gml.PutPointArrayMore | postgis/lwgeom_gml.c:442-484 | the coordinate text written after earlier text extends it (also lines 810-858) |
| Gml.PutPointBody | postgis/lwgeom_gml.c:191-193 | the coordinates or pos element of the point is written and its length returned (also lines 544-546) |
| Gml.PutPoint | postgis/lwgeom_gml.c:182-196 | asgml2_point_buf and asgml3_point_buf write exactly the point element and return its length (also lines 535-549) |
| Gml.PutLineBody | postgis/lwgeom_gml.c:230-232 | the coordinates element, or the GML 3 segments, of the line are written and their length returned (also lines 584-590) |
| Gml.PutLine | postgis/lwgeom_gml.c:221-235 | asgml2_line_buf and asgml3_line_buf write exactly the line element and return its length (also lines 575-593) |
| Gml.InteriorPieces | postgis/lwgeom_gml.c:281-286 | one text per interior ring (also lines 646-651) |
| Gml.InteriorPieceAt | postgis/lwgeom_gml.c:281-286 | the text for interior ring i is that ring's boundary element (also lines 646-651) |
| Gml.InteriorsAsConcat | postgis/lwgeom_gml.c:281-286 | the interior rings' text is their boundary elements in ring order (also lines 646-651) |
| Gml.PutInteriorPiece | postgis/lwgeom_gml.c:283-285 | one interior boundary is written and its length returned (also lines 648-650) |
| Gml.PutInteriorText | postgis/lwgeom_gml.c:283-285 | the boundary of interior ring i is written and its length returned (also lines 648-650) |
| Gml.PutNextInterior | postgis/lwgeom_gml.c:281-286 | one turn of the ring loop extends the boundaries written so far by the next one (also lines 646-651) |
| Gml.PutInteriorPieces | postgis/lwgeom_gml.c:281-286 | the ring loop writes every interior boundary in order (also lines 646-651) |
| Gml.PutInteriors | postgis/lwgeom_gml.c:281-286 | the ring loop writes exactly the interior rings' text and returns its length (also lines 646-651) |
| Gml.PutExterior | postgis/lwgeom_gml.c:278-280 | the outer boundary is written and its length returned (also lines 643-645) |
| Gml.PutPolygonBody | postgis/lwgeom_gml.c:278-287 | the outer boundary, the interior boundaries and the closing tag are written in that order (also lines 643-652) |
| Gml.PutPolygon | postgis/lwgeom_gml.c:268-290 | asgml2_poly_buf and asgml3_poly_buf write exactly the polygon element and return its length (also lines 633-655) |
| Gml.PutPointMember | postgis/lwgeom_gml.c:390-396 | a point member is written inside pointMember, without srsName (also lines 755-761) |
| Gml.PutLineMember | postgis/lwgeom_gml.c:397-403 | a line member is written inside lineStringMember, or curveMember in GML 3, without srsName (also lines 762-768) |
| Gml.PutPolygonMember | postgis/lwgeom_gml.c:404-410 | a polygon member is written inside polygonMember, or surfaceMember in GML 3, without srsName (also lines 769-775) |
| Gml.PutMember | postgis/lwgeom_gml.c:390-417 | one member is written by its kind, a nested collection by the recursive call, and its length returned (also lines 755-782) |
| Gml.MemberTexts | postgis/lwgeom_gml.c:382-418 | one text for each of the first n members (also lines 747-783) |
| Gml.MemberTextAt | postgis/lwgeom_gml.c:382-418 | the text for member i is that member's element (also lines 747-783) |
| Gml.MembersAsConcat | postgis/lwgeom_gml.c:382-418 | the first n members' text is their elements in member order (also lines 747-783) |
| Gml.PutMemberText | postgis/lwgeom_gml.c:390-417 | member i is written and its length returned (also lines 755-782) |
| Gml.PutNextMember | postgis/lwgeom_gml.c:382-418 | one turn of the member loop extends the members written so far by the next one (also lines 747-783) |
| Gml.PutMemberTexts | postgis/lwgeom_gml.c:382-418 | the member loop writes every member in order (also lines 747-783) |
| Gml.PutMembers | postgis/lwgeom_gml.c:382-418 | the member loop writes exactly the members' text and returns its length (also lines 747-783) |
| Gml.PutCollectionBody | postgis/lwgeom_gml.c:382-421 | the members and the closing tag are written (also lines 747-786) |
| Gml.PutCollection | postgis/lwgeom_gml.c:362-424 | asgml2_inspected_buf and asgml3_inspected_buf write exactly the collection element and return its length (also lines 727-789) |
| Gml.PutGeom | postgis/lwgeom_gml.c:134-169 | the geometry's element, by its type, is written and its length returned (also lines 494-522) |
| Gml.Terminate | postgis/lwgeom_gml.c:182-196 | after the text, the NUL sprintf leaves is stored at its end (also lines 535-549) |
| Gml.WriteGml | postgis/lwgeom_gml.c:199-208 | with the corrected sizes the allocated buffer holds the rendered text followed by its NUL (also lines 238-247, 293-302, 430-439) |
| JavaStrings.LeadingBlanks | jdbc2/src/org/postgis/PGgeometry.java:67 | counts exactly the blank characters at the front |
| JavaStrings.TrailingEnd | jdbc2/src/org/postgis/PGgeometry.java:67 | the length without the blank characters at the back |
| JavaStrings.Trim | jdbc2/src/org/postgis/PGgeometry.java:67 | the result is a slice of the input that starts and ends with a non-blank, with only blanks outside it |
| JavaStrings.TrimIdempotent | jdbc2/src/org/postgis/PGgeometry.java:67 | trimming twice is trimming once |
| JavaStrings.TrimStripsPadding | jdbc2/src/org/postgis/PGgeometry.java:67 | blanks added around a trimmed string are removed again |
| JavaStrings.IndexOf | jdbc2/src/org/postgis/PGgeometry.java:142 | the first index of the character, or -1 exactly when it is absent |
| JavaStrings.NatText | jdbc2/src/org/postgis/PGgeometry.java:75 | decimal digits without leading zeros |
| JavaStrings.NatTextValue | jdbc2/src/org/postgis/PGgeometry.java:75 | reading the digits back gives the number |
| JavaStrings.ParseInt | jdbc2/src/org/postgis/PGgeometry.java:75 | a result lies in the 32-bit range and an unsigned text is all digits with that value; anything else throws NumberFormatException |
| JavaStrings.ParseIntText | jdbc2/src/org/postgis/PGgeometry.java:75 | every 32-bit int reads back from its decimal text |
| JdbcGeometry.Kids | jdbc2/src/org/postgis/ComposedGeom.java:49 | the children of a composed geometry, none for a null array, each smaller than the geometry (also lines 96-101) |
| JdbcGeometry.NewComposed | jdbc2/src/org/postgis/ComposedGeom.java:62-70 | the children are the given array, and the dimension is the first child's, or 0 when there is none |
| JdbcGeometry.LeavesUpToPrefix | jdbc2/src/org/postgis/ComposedGeom.java:113-122 | the points of the first i children come before those of the first j |
| JdbcGeometry.EmptyHasNoPoints | jdbc2/src/org/postgis/ComposedGeom.java:95-98 | an empty composed geometry has no points (also lines 153-155) |
| JdbcGeometry.NumPoints | jdbc2/src/org/postgis/ComposedGeom.java:95-105 | the count is the number of points of the whole tree |
| JdbcGeometry.GetPoint | jdbc2/src/org/postgis/ComposedGeom.java:107-125 | a negative index, an empty geometry and an index past the last point each throw; otherwise the n-th point in depth-first order |
| JdbcGeometry.FirstPoint | jdbc2/src/org/postgis/ComposedGeom.java:141-147 | as written: a result is the tree's first point; a throw is the empty-geometry exception |
| JdbcGeometry.LastPoint | jdbc2/src/org/postgis/ComposedGeom.java:130-136 | as written: a result is the tree's last point; a throw is the empty-geometry exception |
| JdbcGeometry.DenseEnds | jdbc2/src/org/postgis/ComposedGeom.java:130-147 | without empty parts the optimised accessors always succeed |
| JdbcGeometry.FirstPointMissesLaterPoint | jdbc2/src/org/postgis/ComposedGeom.java:107-125 | a collection holding an empty collection and then a point: getPoint(0) finds the point, getFirstPoint throws (also lines 141-147) |
| JdbcGeometry.FirstPointFixed | jdbc2/src/org/postgis/ComposedGeom.java:107-125 | the first point as getPoint(0) finds it, with its two exceptions |
| JdbcGeometry.FirstAmong | jdbc2/src/org/postgis/ComposedGeom.java:113-123 | the first point of the children from index i on, or the index-too-large exception |
| JdbcGeometry.LastPointMissesEarlierPoint | jdbc2/src/org/postgis/ComposedGeom.java:130-136 | a collection ending with an empty collection: getLastPoint throws although the geometry has a point |
| JdbcGeometry.LastPointFixed | jdbc2/src/org/postgis/ComposedGeom.java:107-125 | the last point as getPoint(numPoints() - 1) finds it, with the same exceptions |
| JdbcGeometry.LastAmong | jdbc2/src/org/postgis/ComposedGeom.java:113-123 | the last point of the first i children when the later ones have none |
| JdbcGeometry.EqualsInternSymmetric | jdbc2/src/org/postgis/ComposedGeom.java:72-93 | equalsintern is symmetric, so the argument order of the child call does not matter |
| JdbcGeometry.ChildrenSymmetric | jdbc2/src/org/postgis/ComposedGeom.java:86-90 | the child loop is symmetric |
| JdbcGeometry.EqualReflexive | jdbc2/src/org/postgis/ComposedGeom.java:72-93 | structural equality is reflexive |
| JdbcGeometry.EqualSymmetric | jdbc2/src/org/postgis/ComposedGeom.java:72-93 | structural equality is symmetric |
| JdbcGeometry.EqualSameLeaves | jdbc2/src/org/postgis/ComposedGeom.java:72-93 | equal geometries have the same points (also lines 107-125) |
| JdbcGeometry.EqualSameLeavesUpTo | jdbc2/src/org/postgis/ComposedGeom.java:86-90 | equal geometries have the same points in each prefix of children |
| JdbcGeometry.EqualMeansEqualsIntern | jdbc2/src/org/postgis/ComposedGeom.java:72-93 | where structural equality holds, equalsintern returns true |
| JdbcGeometry.EqualChildren | jdbc2/src/org/postgis/ComposedGeom.java:86-90 | the loop over the children of equal geometries returns true |
| JdbcGeometry.MixedChildrenThrow | jdbc2/src/org/postgis/ComposedGeom.java:72-93 | a collection of a point against a collection of a line: the cast of the point throws where the answer should be false |
| JdbcGeometry.ChildKindIgnored | jdbc2/src/org/postgis/ComposedGeom.java:72-93 | a line and a multipoint with the same points compare equal, since the children's class is never checked |
| JdbcGeometry.EmptyText | jdbc2/src/org/postgis/ComposedGeom.java:157-165 | the text is " EMPTY" exactly when the geometry is empty |
| JdbcGeometry.InnerTextLength | jdbc2/src/org/postgis/ComposedGeom.java:167-173 | the inner text is the children's texts with one comma between each two |
| JdbcGeometry.MediumWkt | jdbc2/src/org/postgis/ComposedGeom.java:157-165 | the buffer is extended by the geometry's medium text |
| JdbcGeometry.InnerWkt | jdbc2/src/org/postgis/ComposedGeom.java:167-173 | the loop appends the first child, then a comma and each further child |
| JdbcGeometry.HashCache.constructor | jdbc2/src/org/postgis/ComposedGeom.java:176-177 | a new geometry has no hash computed yet |
| JdbcGeometry.HashCache.HashCode | jdbc2/src/org/postgis/ComposedGeom.java:179-185 | the fields after a call are one HashStep from the old ones, and the result is the stored hash |
| JdbcGeometry.HashStep | jdbc2/src/org/postgis/ComposedGeom.java:179-185 | the first call throws exactly when the array is null; a success marks the hash as computed; later calls keep the fields |
| JdbcGeometry.HashMemoised | jdbc2/src/org/postgis/ComposedGeom.java:179-185 | after a first call that succeeds, every later call gives the same value |
| JdbcMultiPolygon.ParseAllOk | jdbc2/src/org/postgis/MultiPolygon.java:48-52 | a successful run has one polygon per token, each that token's parse |
| JdbcMultiPolygon.ParseAllErr | jdbc2/src/org/postgis/MultiPolygon.java:50-52 | a failed run reports the message of the first token that does not parse |
| JdbcMultiPolygon.ParsePolygons | jdbc2/src/org/postgis/MultiPolygon.java:48-52 | the loop that fills subgeoms computes ParseAll |
| JdbcMultiPolygon.ParseAllStops | jdbc2/src/org/postgis/MultiPolygon.java:50-52 | once a token throws, the whole run throws its message |
| JdbcMultiPolygon.MultiPolygonOf | jdbc2/src/org/postgis/MultiPolygon.java:43-57 | text not starting with MULTIPOLYGON throws; a result is a MULTIPOLYGON without SRID |
| JdbcMultiPolygon.NewMultiPolygon | jdbc2/src/org/postgis/MultiPolygon.java:43-57 | the constructor with its loop computes MultiPolygonOf |
| JdbcMultiPolygon.MultiPolygonParts | jdbc2/src/org/postgis/MultiPolygon.java:43-57 | no tokens throws; a result has one polygon per token in order and the first polygon's dimension; every token parsing gives a result |
| JdbcMultiPolygon.NumPolygons | jdbc2/src/org/postgis/MultiPolygon.java:59-61 | the number of polygons, throwing exactly for a null array |
| JdbcMultiPolygon.GetPolygon | jdbc2/src/org/postgis/MultiPolygon.java:63-69 | throws exactly for a null array; otherwise the polygon at an index inside the array and null outside |
| JdbcMultiPolygon.ParsedAccessors | jdbc2/src/org/postgis/MultiPolygon.java:43-69 | on a parsed multipolygon the accessors give the token count and each token's polygon |
| PgGeometry.SplitAtFirst | jdbc2/src/org/postgis/PGgeometry.java:141-150 | the whole string when the border is absent, otherwise the parts before and after its first occurrence |
| PgGeometry.WithSrid | jdbc2/src/org/postgis/PGgeometry.java:103-105 | the geometry with its srid set and everything else kept |
| PgGeometry.EmptyCollection | jdbc2/src/org/postgis/PGgeometry.java:79-82 | the empty geometry collection without SRID |
| PgGeometry.Dispatch | jdbc2/src/org/postgis/PGgeometry.java:78-101 | a text ending in EMPTY is the empty collection |
| PgGeometry.GeomFromString | jdbc2/src/org/postgis/PGgeometry.java:66-108 | without an SRID prefix, the trimmed text goes straight to the dispatch |
| PgGeometry.TrimsFirst | jdbc2/src/org/postgis/PGgeometry.java:66-67 | only the trimmed text matters |
| PgGeometry.EmptyCollapses | jdbc2/src/org/postgis/PGgeometry.java:79-82 | a text ending in EMPTY is an empty collection whatever keyword it names |
| PgGeometry.MissingSemicolon | jdbc2/src/org/postgis/PGgeometry.java:71-74 | an SRID prefix without a ';' throws the index exception |
| PgGeometry.KeywordSelects | jdbc2/src/org/postgis/PGgeometry.java:83-96 | a text starting with a keyword reaches that keyword's constructor |
| PgGeometry.HexSelectsBinary | jdbc2/src/org/postgis/PGgeometry.java:97-98 | hexadecimal text starting 00 or 01 goes to the binary parser |
| PgGeometry.SridApplied | jdbc2/src/org/postgis/PGgeometry.java:71-76 | with a prefix SRID=n; the geometry comes from the text after the first ';' and the srid from the text between '=' and ';' (also lines 103-105) |
| PgGeometry.PrefixSplits | jdbc2/src/org/postgis/PGgeometry.java:71-76 | the two splits take the prefix apart into the SRID text and the rest |
| PgGeometry.SplitUnique | jdbc2/src/org/postgis/PGgeometry.java:141-150 | splitting a + [c] + b where c is not in a gives a and b |
| PgGeometry.SpaceAfterSemicolonUnknown | jdbc2/src/org/postgis/PGgeometry.java:71-76 | a space after the ';' is not trimmed and the text is of unknown type (also lines 99-101) |
| PgGeometry.UnknownFirstChar | jdbc2/src/org/postgis/PGgeometry.java:79-101 | a text whose first character starts no keyword and no hexadecimal form is of unknown type |
| PgGeometry.PGgeometry.constructor | jdbc2/src/org/postgis/PGgeometry.java:39-41 | a new wrapper holds no geometry yet |
| PgGeometry.PGgeometry.SetValue | jdbc2/src/org/postgis/PGgeometry.java:53-55 | the field takes the parsed geometry; a throw leaves it as it was |

## Left out

- I/O, memory management (`lwfree`, `pfree`, `*_release`), PostgreSQL's fmgr argument fetching, debug output and profiling are not modelled.
- Geometries that the C edits in place (`lwgeom_set_srid`, `lwgeom_add_bbox`, `lwgeom_drop_bbox`, `lwgeom_drop_srid`, the GEOS repairs replacing `poly->rings`) are values here: aliasing of the edited struct is not captured.
- `liblwgeom.h`, `lwgeom_inspect`, `lwline_deserialize`, `lwcircstring_deserialize`, `lwpoly_deserialize`, `lwgeom_deserialize` and the `*_construct` functions of the types whose files are not part of this model are function parameters. The unseen constructors (`lwline_construct`, `lwcircstring_construct`, `lwmpoint_construct`, `lwcollection_construct` and their `_empty` forms) are assumed to behave as `lwpoint_construct` does; in particular `lwmpoint_construct` is taken to make one point member per point of its array, each with SRID -1 and no box (`LwWktIn.PointsOf`).
- Floating point: ordinates are 64-bit words. Comparison is a total order on them, equal to the C `==` except for NaN, which is not modelled. `atof` results are kept as the text they came from.
- Trigonometry of the geodetic box (`ptarray_calculate_gbox_geodetic` and friends) is not modelled; only the point arrays it draws from (`BoxSources`) are.
- The varlena header bit encoding, `INTALIGN` padding of array elements and the autocache of boxes (`POSTGIS_AUTOCACHE_BBOX`) are not modelled.
- The GEOS calls themselves (union, relate, buffer, prepare, `GEOS2POSTGIS`) are not modelled. The prepared geometry is represented by the serialized bytes it was made from, and the destruction of a prepared geometry is not modelled.
- `is_worth_caching_serialized_bbox` and `getbox2d_p` are parameters of `PgLwgeom.Construct`.
- LwGeom.Same: `box2d_same` (liblwgeom/lwgeom.c:852) is not part of this model. It is taken as byte equality of the two cached boxes. A float `==` comparison would also treat boxes that differ only in the sign of a zero as the same; for such boxes the model answers false where the C would go on to the type's own test.
- `WKB` readers (`wkb_to_lwgeom`, `LWGEOMFromWKB`) are not part of this model. `HexWkb.LwgeomIn` returns the decoded bytes instead of the geometry built from them.
- WKT parser error codes are the index of their message in the message table. An unset `hasbbox` of `lwpoint_construct` is the parameter `leftover`.
- `lwcollection_is_empty` (liblwgeom/lwcollection.c is not part of this model) is taken as "no members".
- `ptarray_insert_point` copies overlapping memory with `memcpy`; the model copies as `memmove` would.
- `ptarray_append_ptarray` is unfinished in the source (it only checks its arguments) and is modelled as far as it goes.
- `trim_trailing_zeros` and `sprintf("%.*f")` are the parameter `num` of the GML writers.
- The GML 3 output of curve types and of polygons without rings is outside `Gml.Writable`: the former depends on `lwgeom_inspect`, and the latter reads `rings[0]`.
- Java: `Point`, `Geometry`, the other geometry classes' string constructors, `PGtokenizer`, `BinaryParser`, `toString`/`getValue` and the round trip through text are not part of this model; they are parameters.
- Java: `Object.hashCode` identity hashes are parameters, and concurrent use of the hash cache is not modelled.
- JdbcGeometry.NumPoints: the Java `int` sum can overflow past 2^31 - 1; the model counts with unbounded integers.
- JdbcGeometry.GetPoint: null elements inside a non-null array are not modelled (they throw NullPointerException in Java).
- JavaStrings.ParseInt: accepts a leading '+' (as Java 7 and later do) and only the ASCII digits, not other Unicode decimal digits.
- LwWktIn.ReadSrid: `wkt_lexer_read_srid` reads the number with `strtol` (liblwgeom/lwin_wkt.c:36), which saturates at LONG_MIN and LONG_MAX on a 64-bit `long`; the `(int)` cast then keeps the low 32 bits, as the model's `Clamp` and `CastToInt` do. Other `long` widths are not modelled.
- GeosClean.PolyMakeValid: a polygon without rings is returned as it is. As written, `lwpoly_make_valid` releases the polygon and then stores into it (postgis/lwgeom_geos.c:4053-4065); that use after free is not modelled.
- GeosClean.PolyMakeValid: uses the padding loop of the GEOS-friendly repair rather than the single padding step of `ring_make_valid`; see Findings.
- LwGeom.AsMulti: the MULTITYPE table gives no multi type for TRIANGLE under the assumed numbering. The model follows the table, so a triangle is cloned while `lwtype_get_collectiontype` gives TIN.
- LwWktIn.FinalizeComparesCounts: `wkt_parser_collection_finalize` compares only the number of dimensions for the multi types, not the Z/M flags; the model keeps that behaviour.
- LwGeodetic.EmptyPointCountsDiffer: the vertex count of liblwgeom/lwgeodetic.c counts one vertex for a point whose array is present but empty, while `lwgeom_count_vertices` of lwgeom.c counts its points, none; the model keeps both counts as written.
- LwTriangle.ConstructorsSRIDFlag: `lwtriangle_construct` sets the SRID flag for every SRID but -1 and `lwtriangle_construct_empty` only for positive SRIDs; the model keeps both, so they disagree for 0 and other negative SRIDs.
- LwHomogenize.Buckets.AddSubgeom: `lwgeom_homogenize` sets the SRID of the caller's own member to -1 in place (`geom->SRID = -1`, liblwgeom/lwhomogenize.c:221) before it clones it into a bucket; the model resets only the copy it stores, so that change to the input is not modelled.
- GeosClean.MakeValidGeom: repairs a short ring with the padding loop of the GEOS-friendly repair (pad until four points), while `ring_make_valid` (postgis/lwgeom_geos.c:3989-4000) pads only once; see Findings.
- GeosClean.CollectionMakeValid: repairs each member through `GeosClean.MakeValidGeom`, so it pads short rings with the same loop rather than the single padding step as written.
- GeosClean.RepairedReady: its readiness and idempotence clauses for the make-valid mode hold of the corrected padding loop; as written a closed two-point ring comes out with three points, not ready for GEOS (`GeosClean.RingMakeValidPadsOnce`).
- GeosClean.IsRing: a ring holds at least one point. On an empty ring `ptarray_close2d` (postgis/lwgeom_geos.c:3957-3973) reads point 0 of an array that has none; that case is not modelled.
- JdbcGeometry: `Point.equalsintern` (Point.java is not part of this model) is fixed as equality of the point records, comparing x, y, z and dimension after the cast to Point; only a point's text is a parameter.
- Gml.Writable: besides the GML 3 cases above, a GML 2 collection with a curve type among its nested members is outside `Gml.Shaped`; what `asgml2_inspected_buf` writes for such a member is not modelled.
- HexWkb.PolyToWkb: `lwpoly_to_wkb` reads `poly->rings[0]` to size its points even when the polygon has no rings (lwgeom/lwgeom_inout.c:655); the model takes the point size from the dimension count and does not model that read.
- LwGeodetic.CountVertices: the C sum is an `int` and can overflow past 2^31 - 1; the model counts with unbounded integers. The same holds for `LwGeom.CountVertices`.
- LwMSurface.Deserialize: `lwpoly_deserialize` and `lwcurvepoly_deserialize` never set a member's `flags`, so the dimension test at liblwgeom/lwmsurface.c:85 reads unset bits; the model compares the dimension counts of the members' type bytes instead.
- LwGeom.CountVertices: compound curves, curve polygons and the other collection types are counted through `lwcollection_count_vertices` (liblwgeom/lwgeom.c:1180-1189; liblwgeom/lwcollection.c is not part of this model), which is taken to be the plain sum over the members.
- LwWktIn.AddCoord: `ptarray_add_point` is not part of this model; it is taken to append the point as `ptarray_append_point` does with repeated points allowed.
- LwWktIn.ParserResult.constructor: the initialisation of a parse result (`lwgeom_parser_result_init`) is not part of this model; the constructor stands for it, with no error, no message, no geometry and the given check flags.
- WktUnparse.ReadInt: `int4` is `unsigned long` (lwgeom/wktunparse.c:30), and `read_int` copies 4 bytes into an uninitialised `int4` (lwgeom/wktunparse.c:111-128). The model fixes `int4` at 32 bits. With a 64-bit `long` on a big-endian machine, those 4 bytes fill the high half of `ret`, so the counts (lines 177, 326) and the SRID that `write_int(read_int(..))` writes (lines 227, 349) would differ; that case is not modelled. `SHRINK_INTS` is off (lwgeom/wktparse.h:23), as in the model.
- WktUnparse.OrdHead: the integer-coordinate branch of `read_double` (lwgeom/wktunparse.c:143-147) reads the ordinate through `(int4*)` and advances 4 bytes. The model gives the spelling of the ordinate the 4 bytes it advances over (`Width`). With a 64-bit `long`, the C reads 8 bytes, so the ordinate's text would also depend on the next ordinate's bytes; that is not modelled.
- JdbcGeometry: LineString, LinearRing, Polygon, MultiPoint, MultiLineString, MultiPolygon, GeometryCollection and their shared base `PointComposedGeom` are not part of this model. Each is assumed to inherit `numPoints`, `getPoint`, `getFirstPoint`, `getLastPoint`, `mediumWKT`, `innerWKT` and `equalsintern` from ComposedGeom.java unchanged, so every composed child runs ComposedGeom's own bodies. An override in an unseen class is not modelled. The Findings rows for jdbc2/src/org/postgis/ComposedGeom.java:130-147 and :72-93 rest on this assumption.
- OldGeom.Clone: `lwgeom_clone`'s dispatch (lwgeom/lwgeom.c is not part of this model) is taken to make the same shallow struct copy for every type, as `lwpoint_clone` does, wherever the old collection code clones a member.

## Findings

| source | as written | input that shows it | evidently intended | confidence | as-written member | corrected member |
|---|---|---|---|---|---|---|
| liblwgeom/ptarray.c:625-641 | `ptarray_clone` copies `maxpoints` but allocates room for `npoints` only | any array with spare capacity, e.g. npoints 1, maxpoints 4: the clone claims 3 slots it does not have; `ptarray_remove_repeated_points` (line 1125) returns such a clone for every input of fewer than 3 points | the clone's capacity is the room it owns | high, not executed | PointArrays.PointArray.CloneAsWritten | PointArrays.PointArray.Clone |
| liblwgeom/lwtriangle.c:365-397 | `lwtriangle_from_lwline` errors when `lwtriangle_is_repeated_points` is true, but that function returns true when removing repeats changes nothing, i.e. when there are none | the unit shell (0 0, 1 0, 0 1, 0 0) is rejected | reject shells that do have repeated points | high, not executed | LwTriangle.UnitShellRejected | LwTriangle.FromLineAccepts |
| liblwgeom/lwhomogenize.c:235 | `lwgeom_is_collection(type)` passes the type number where a geometry pointer is expected: undefined behaviour, for which the model's Err stands in, so nested collections are never flattened | GEOMETRYCOLLECTION(MULTIPOINT(POINT(0 0))) fails | test the member's type with `lwtype_is_collection` and flatten nested collections | medium, not executed | LwHomogenize.NestedExampleAsWritten | LwHomogenize.NestedExampleFixed |
| liblwgeom/lwin_wkt.c:282-287 | the odd-point check errors when the count is odd, while a circular string needs an odd count | CIRCULARSTRING of 5 points with the check on is rejected | reject an even count | high, not executed | LwWktIn.FivePointArcRejected | LwWktIn.CircOddFixed |
| liblwgeom/lwcompound.c:35,59-66 | `result->type` is the bare COMPOUNDTYPE, so its dimension count is 2 and every Z or M component is "mixed" | any COMPOUNDCURVE Z, e.g. one LINESTRING Z member | the type carries the serialized Z/M flags, as lwcurvepoly.c:41 does | medium, not executed (assumes the unseen `lwline_deserialize` keeps the full type byte) | LwCompound.ZCompoundRejected | LwCompound.Deserialize |
| lwgeom/lwcollection.c:167-168 | with `where` a uint32, `where < -1` compares against 0xFFFFFFFF and is true for every position but -1 | `lwcollection_add(c, 0, g)` (prepend) errors | accept positions 0 to ngeoms | high, not executed | OldGeom.PrependRejectedAsWritten | OldGeom.AddPosition |
| lwgeom/lwcollection.c:142-154 | the `memcpy` copies the member array pointer, so the clone loop overwrites the source's own member slots | any one-member collection: its member slot now points at the copy | a fresh member array for the clone | high, not executed | OldGeom.CloneReplacesSourceMember | OldGeom.CollectionClone |
| lwgeom/lwcollection.c:101-106, lwgeom/lwmpoly.c:91-96 | the member loop never advances `loc`, so every member is written at the same offset | two members of equal length and different bytes: the second overwrites the first | advance `loc` by each member's size | high, not executed | OldGeom.OverlayLosesFirstMember | OldGeom.CollectionSerializeBuf |
| postgis/lwgeom_geos.c:3989-4000 | `ring_make_valid` pads a short ring once instead of looping | a ring of two equal points stays at three points | pad until four points, as `ring_make_geos_friendly` does | high, not executed | GeosClean.RingMakeValidPadsOnce | GeosClean.FriendlyRingProps |
| postgis/lwgeom_gml.c:565-593 | `asgml3_line_size` leaves no byte for the NUL | a GML 3 line without points and without srsName: 126 characters into 126 bytes | one more byte | high, not executed | Gml.EmptyCurveFillsBuffer | Gml.WriteGml |
| postgis/lwgeom_gml.c:928-935 | `pointArray_GMLsize` allows MAX_DIGS_DOUBLE characters per ordinate, fewer than `%.*f` writes for large values | POINT(2e31 2e31) at precision 0 in GML 2: 123 characters into 100 bytes | size each ordinate by the longest fixed-point spelling; an ordinate of 33 or more characters also overflows the scratch buffers `x`, `y` and `z` (lines 446-448, 814-816) before the output buffer, which `Gml.WriteGml`'s corrected sizing does not cover | medium, not executed | Gml.WideNumberOverflows | Gml.WriteGml |
| jdbc2/src/org/postgis/ComposedGeom.java:141-147 | `getFirstPoint` descends into the first child even when it has no points | GEOMETRYCOLLECTION(GEOMETRYCOLLECTION EMPTY, POINT(p)) throws | the first point `getPoint(0)` finds | high, not executed | JdbcGeometry.FirstPointMissesLaterPoint | JdbcGeometry.FirstPointFixed |
| jdbc2/src/org/postgis/ComposedGeom.java:130-136 | `getLastPoint` descends into the last child even when it has no points | GEOMETRYCOLLECTION(POINT(p), GEOMETRYCOLLECTION EMPTY) throws | the last point `getPoint(numPoints() - 1)` finds | high, not executed | JdbcGeometry.LastPointMissesEarlierPoint | JdbcGeometry.LastPointFixed |
| jdbc2/src/org/postgis/ComposedGeom.java:72-93 | children are compared with `equalsintern`, which assumes both have the same class | GEOMETRYCOLLECTION(POINT) against GEOMETRYCOLLECTION(LINESTRING): ClassCastException | compare children with `equals`, checking the class first | medium, not executed | JdbcGeometry.MixedChildrenThrow | JdbcGeometry.EqualMeansEqualsIntern |
