TestResult.DisplayName,TestResult.Outcome,TestResult.Duration,TestResult.ResourceCount,RandomSeed
LinAlg.SolveSystemQR (correctness),Failed,00:00:01.6155389,5071682,4
LinAlg.SolveSystemQR (well-formedness),Passed,00:00:00.1696245,91836,4
