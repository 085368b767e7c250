/** The array-backed disk and the byte copies underneath it. */
module Disk {
  import opened Words
  import opened FatLayout
  import opened FatOps

  const IMAGE_SIZE := CLUSTER_SIZE * DISK_CLUSTERS

  function ClusterToLba(cluster: nat): nat { cluster * CLUSTER_BLOCK_COUNT }

  function ClusterAt(bytes: Bytes, c: nat): Cluster
    requires |bytes| == IMAGE_SIZE && c < DISK_CLUSTERS
  {
    bytes[CLUSTER_SIZE * c..CLUSTER_SIZE * (c + 1)]
  }

  lemma OneClusterChanged(before: Bytes, after: Bytes, cluster: nat, src: Cluster)
    requires |before| == |after| == IMAGE_SIZE && cluster < DISK_CLUSTERS
    requires forall k :: CLUSTER_SIZE * cluster <= k < CLUSTER_SIZE * (cluster + 1) ==> after[k] == src[k - CLUSTER_SIZE * cluster]
    requires forall k :: 0 <= k < IMAGE_SIZE && !(CLUSTER_SIZE * cluster <= k < CLUSTER_SIZE * (cluster + 1)) ==> after[k] == before[k]
    ensures forall c :: 0 <= c < DISK_CLUSTERS ==> ClusterAt(after, c) == if c == cluster then src else ClusterAt(before, c)
  {
    forall c | 0 <= c < DISK_CLUSTERS
      ensures ClusterAt(after, c) == if c == cluster then src else ClusterAt(before, c)
    {
      forall k | 0 <= k < CLUSTER_SIZE
        ensures ClusterAt(after, c)[k] == if c == cluster then src[k] else ClusterAt(before, c)[k]
      {
        assert ClusterAt(after, c)[k] == after[CLUSTER_SIZE * c + k];
        assert ClusterAt(before, c)[k] == before[CLUSTER_SIZE * c + k];
      }
    }
  }

  class BlockDevice {
    const image: array<u8>
    /** Every cluster written so far, in order. */
    ghost var journal: seq<ClusterWrite>

    ghost predicate Valid()
      reads this
    {
      image.Length == IMAGE_SIZE
    }

    /** The image as a sequence of clusters. */
    ghost function View(): Image
      requires Valid()
      reads this, image
    {
      seq(DISK_CLUSTERS, c requires 0 <= c < DISK_CLUSTERS reads this, image => ClusterAt(image[..], c))
    }

    constructor (initial: array<u8>)
      requires initial.Length == IMAGE_SIZE
      ensures Valid() && image == initial && journal == []
    {
      image := initial;
      journal := [];
    }

    /** Copies whole blocks out of the image, one block at a time. */
    method ReadBlocks(dst: array<u8>, offset: nat, lba: nat, count: nat)
      requires Valid() && dst != image
      requires BLOCK_SIZE * (lba + count) <= image.Length && offset + BLOCK_SIZE * count <= dst.Length
      modifies dst
      ensures forall k :: offset <= k < offset + BLOCK_SIZE * count ==> dst[k] == image[BLOCK_SIZE * lba + (k - offset)]
      ensures forall k :: 0 <= k < dst.Length && !(offset <= k < offset + BLOCK_SIZE * count) ==> dst[k] == old(dst[k])
    {
      for i := 0 to count
        invariant forall k :: offset <= k < offset + BLOCK_SIZE * i ==> dst[k] == image[BLOCK_SIZE * lba + (k - offset)]
        invariant forall k :: 0 <= k < dst.Length && !(offset <= k < offset + BLOCK_SIZE * i) ==> dst[k] == old(dst[k])
      {
        var from, to := BLOCK_SIZE * (lba + i), offset + BLOCK_SIZE * i;
        for j := 0 to BLOCK_SIZE
          invariant forall k :: offset <= k < to + j ==> dst[k] == image[BLOCK_SIZE * lba + (k - offset)]
          invariant forall k :: 0 <= k < dst.Length && !(offset <= k < to + j) ==> dst[k] == old(dst[k])
        {
          dst[to + j] := image[from + j];
        }
      }
    }

    /** Copies whole blocks into the image, one block at a time. */
    method WriteBlocks(src: Bytes, lba: nat, count: nat)
      requires Valid()
      requires BLOCK_SIZE * (lba + count) <= image.Length && BLOCK_SIZE * count <= |src|
      modifies image
      ensures forall k :: BLOCK_SIZE * lba <= k < BLOCK_SIZE * (lba + count) ==> image[k] == src[k - BLOCK_SIZE * lba]
      ensures forall k :: 0 <= k < image.Length && !(BLOCK_SIZE * lba <= k < BLOCK_SIZE * (lba + count)) ==> image[k] == old(image[k])
    {
      for i := 0 to count
        invariant forall k :: BLOCK_SIZE * lba <= k < BLOCK_SIZE * (lba + i) ==> image[k] == src[k - BLOCK_SIZE * lba]
        invariant forall k :: 0 <= k < image.Length && !(BLOCK_SIZE * lba <= k < BLOCK_SIZE * (lba + i)) ==> image[k] == old(image[k])
      {
        var from, to := BLOCK_SIZE * i, BLOCK_SIZE * (lba + i);
        for j := 0 to BLOCK_SIZE
          invariant forall k :: BLOCK_SIZE * lba <= k < to + j ==> image[k] == src[k - BLOCK_SIZE * lba]
          invariant forall k :: 0 <= k < image.Length && !(BLOCK_SIZE * lba <= k < to + j) ==> image[k] == old(image[k])
        {
          image[to + j] := src[from + j];
        }
      }
    }

    /** Reads one cluster into a buffer at an offset. */
    method ReadCluster(dst: array<u8>, offset: nat, cluster: nat)
      requires Valid() && dst != image && cluster < DISK_CLUSTERS && offset + CLUSTER_SIZE <= dst.Length
      modifies dst
      ensures dst[offset..offset + CLUSTER_SIZE] == View()[cluster]
      ensures forall k :: 0 <= k < dst.Length && !(offset <= k < offset + CLUSTER_SIZE) ==> dst[k] == old(dst[k])
      ensures View() == old(View())
    {
      ReadBlocks(dst, offset, ClusterToLba(cluster), CLUSTER_BLOCK_COUNT);
      assert image[..] == old(image[..]);
      assert dst[offset..offset + CLUSTER_SIZE] == ClusterAt(image[..], cluster);
    }

    /** Writes one cluster and journals it. */
    method WriteCluster(src: Cluster, cluster: nat)
      requires Valid() && cluster < DISK_CLUSTERS
      modifies this`journal, image
      ensures View() == old(View())[cluster := src]
      ensures journal == old(journal) + [ClusterWrite(cluster, src)]
    {
      WriteBlocks(src, ClusterToLba(cluster), CLUSTER_BLOCK_COUNT);
      journal := journal + [ClusterWrite(cluster, src)];
      OneClusterChanged(old(image[..]), image[..], cluster, src);
    }
  }
}
